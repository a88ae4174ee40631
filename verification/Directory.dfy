/** What the file system keeps in bytes: the header of an inode (struct inode_disk) and the
    entries of the root directory (struct dir_entry). */
module Directory {
  import opened Disk
  import opened InodeIO

  const INODE_MAGIC: nat := 0x494e4f44
  const NAME_MAX: nat := 14
  const ENTRY_SIZE: nat := 20
  const ROOT_ENTRIES: nat := 16
  const DIR_SIZE: nat := ENTRY_SIZE * ROOT_ENTRIES

  // ---- 32-bit little-endian numbers ----

  function Word(b: seq<Byte>): (r: nat)
    requires |b| == 4
    ensures r < 0x1_0000_0000
  {
    b[0] as nat + 0x100 * b[1] as nat + 0x1_0000 * b[2] as nat + 0x100_0000 * b[3] as nat
  }

  function WordBytes(x: nat): (b: seq<Byte>)
    requires x < 0x1_0000_0000
    ensures |b| == 4 && Word(b) == x
  {
    var y := x / 0x100;
    var z := y / 0x100;
    [(x % 0x100) as Byte, (y % 0x100) as Byte, (z % 0x100) as Byte, (z / 0x100) as Byte]
  }

  // ---- inode headers ----

  function HeaderOf(s: Sector): Extent { Extent(Word(s[0..4]), Word(s[4..8])) }

  function HeaderSector(e: Extent): (s: Sector)
    requires e.start < 0x1_0000_0000 && e.length < 0x8000_0000
    ensures HeaderOf(s) == e
  {
    var s := WordBytes(e.start) + WordBytes(e.length) + WordBytes(INODE_MAGIC) + seq(500, _ => 0);
    assert s[0..4] == WordBytes(e.start) && s[4..8] == WordBytes(e.length);
    s
  }

  // ---- directory entries ----

  datatype Entry = Entry(sector: nat, name: seq<Byte>, inUse: bool)

  /** The C string that starts a buffer. */
  function CString(b: seq<Byte>): (r: seq<Byte>)
    ensures |r| <= |b| && 0 !in r
  {
    if b == [] || b[0] == 0 then [] else [b[0]] + CString(b[1..])
  }

  lemma {:induction false} CStringOf(name: seq<Byte>, rest: seq<Byte>)
    requires 0 !in name
    ensures CString(name + [0] + rest) == name
  {
    if name != [] {
      assert (name + [0] + rest)[1..] == name[1..] + [0] + rest;
      CStringOf(name[1..], rest);
    }
  }

  /** A name that dir_add accepts. */
  predicate ValidName(name: seq<Byte>) { 0 < |name| <= NAME_MAX && 0 !in name }

  function EntryOf(b: seq<Byte>): Entry
    requires |b| == ENTRY_SIZE
  {
    Entry(Word(b[0..4]), CString(b[4..19]), b[19] != 0)
  }

  /** dir_add fills in the buffer it last read into; strlcpy leaves what follows the name. */
  function NewEntry(raw: seq<Byte>, name: seq<Byte>, sector: nat): (b: seq<Byte>)
    requires |raw| == ENTRY_SIZE && ValidName(name) && sector < 0x1_0000_0000
    ensures |b| == ENTRY_SIZE && EntryOf(b) == Entry(sector, name, true)
  {
    var rest := raw[5 + |name|..19];
    var b := WordBytes(sector) + (name + [0] + rest) + [1];
    CStringOf(name, rest);
    assert b[0..4] == WordBytes(sector) && b[4..19] == name + [0] + rest;
    b
  }

  /** dir_remove clears in_use in the entry it found. */
  function Erased(raw: seq<Byte>): (b: seq<Byte>)
    requires |raw| == ENTRY_SIZE
    ensures |b| == ENTRY_SIZE && EntryOf(b) == EntryOf(raw).(inUse := false)
  {
    var b := raw[..19] + [0];
    assert b[0..4] == raw[0..4] && b[4..19] == raw[4..19];
    b
  }

  // ---- the directory as a sequence of entries ----

  function Entries(dir: seq<Byte>): (r: seq<Entry>)
    requires |dir| == DIR_SIZE
    ensures |r| == ROOT_ENTRIES
  {
    seq(ROOT_ENTRIES, i requires 0 <= i < ROOT_ENTRIES => EntryOf(dir[ENTRY_SIZE * i..ENTRY_SIZE * i + ENTRY_SIZE]))
  }

  /** Writing one slot replaces one entry. */
  lemma EntryWritten(dir: seq<Byte>, k: nat, b: seq<Byte>)
    requires |dir| == DIR_SIZE && k < ROOT_ENTRIES && |b| == ENTRY_SIZE
    ensures Entries(Spliced(dir, ENTRY_SIZE * k, b)) == Entries(dir)[k := EntryOf(b)]
  {
    hide EntryOf;
    var es, es' := Entries(dir), Entries(Spliced(dir, ENTRY_SIZE * k, b));
    forall i | 0 <= i < ROOT_ENTRIES ensures es'[i] == es[k := EntryOf(b)][i] {
      SlotSlice(dir, k, b, i);
    }
  }

  lemma SlotSlice(dir: seq<Byte>, k: nat, b: seq<Byte>, i: nat)
    requires |dir| == DIR_SIZE && k < ROOT_ENTRIES && i < ROOT_ENTRIES && |b| == ENTRY_SIZE
    ensures Spliced(dir, ENTRY_SIZE * k, b)[ENTRY_SIZE * i..ENTRY_SIZE * i + ENTRY_SIZE] ==
            if i == k then b else dir[ENTRY_SIZE * i..ENTRY_SIZE * i + ENTRY_SIZE]
  {
    var dir' := Spliced(dir, ENTRY_SIZE * k, b);
    var x := dir'[ENTRY_SIZE * i..ENTRY_SIZE * i + ENTRY_SIZE];
    var y := if i == k then b else dir[ENTRY_SIZE * i..ENTRY_SIZE * i + ENTRY_SIZE];
    assert |x| == |y|;
    forall j | 0 <= j < ENTRY_SIZE ensures x[j] == y[j] {
      assert x[j] == dir'[ENTRY_SIZE * i + j];
    }
  }

  /** Every read or write of a slot stays in one sector, so it moves 20 bytes, or none when
      there is no memory for the bounce buffer; past the last slot it moves none. */
  lemma SlotTransfer(e: Extent, k: nat, bounce: bool)
    requires e.length == DIR_SIZE && k <= ROOT_ENTRIES
    ensures Transferred(e, ENTRY_SIZE, ENTRY_SIZE * k, bounce) == if bounce && k < ROOT_ENTRIES then ENTRY_SIZE else 0
  {
  }

  // ---- lookup and dir_add on entries ----

  predicate Named(e: Entry, name: seq<Byte>) { e.inUse && e.name == name }

  /** lookup over the slots before STOP, where the first read fails. */
  function Find(es: seq<Entry>, name: seq<Byte>, stop: nat): (r: nat)
    ensures r <= stop && r <= |es|
    ensures forall j | 0 <= j < r :: !Named(es[j], name)
    ensures r < stop && r < |es| ==> Named(es[r], name)
  {
    if stop == 0 || es == [] || Named(es[0], name) then 0 else
      assert forall j | 1 <= j < |es| :: es[1..][j - 1] == es[j];
      1 + Find(es[1..], name, stop - 1)
  }

  /** dir_add's search for a free slot, with the first read failing at STOP. */
  function FreeSlot(es: seq<Entry>, stop: nat): (r: nat)
    ensures r <= stop && r <= |es|
    ensures forall j | 0 <= j < r :: es[j].inUse
    ensures r < stop && r < |es| ==> !es[r].inUse
  {
    if stop == 0 || es == [] || !es[0].inUse then 0 else
      assert forall j | 1 <= j < |es| :: es[1..][j - 1] == es[j];
      1 + FreeSlot(es[1..], stop - 1)
  }

  /** dir_add gets to write an entry: the lookup finds no memory at slot STOP1, the search for a
      free slot at STOP2 (past the end: never), and WRITE tells whether the write does. */
  predicate CanList(es: seq<Entry>, name: seq<Byte>, stop1: nat, stop2: nat, write: bool) {
    && ValidName(name) && !(Find(es, name, stop1) < stop1 && Find(es, name, stop1) < |es|)
    && write && FreeSlot(es, stop2) < |es|
  }

  /** dir_add */
  function Added(es: seq<Entry>, name: seq<Byte>, sector: nat, stop1: nat, stop2: nat, write: bool): seq<Entry> {
    if CanList(es, name, stop1, stop2, write) then es[FreeSlot(es, stop2) := Entry(sector, name, true)] else es
  }

  /** dir_add succeeds exactly for a name of one to 14 characters that it does not come across before
      memory runs out, if the entry can be written and there is a slot that is free or that it cannot
      read. */
  lemma CanListExactly(es: seq<Entry>, name: seq<Byte>, stop1: nat, stop2: nat, write: bool)
    ensures CanList(es, name, stop1, stop2, write) <==>
              && 0 < |name| <= 14 && 0 !in name && write
              && (forall j | 0 <= j < stop1 && j < |es| :: !Named(es[j], name))
              && (stop2 < |es| || exists j | 0 <= j < |es| :: !es[j].inUse)
  {
  }

  /** Then the name is found with its sector, in the first such slot, and no other slot changes. */
  lemma AddedExactly(es: seq<Entry>, name: seq<Byte>, sector: nat, stop1: nat, stop2: nat, write: bool) returns (k: nat)
    requires CanList(es, name, stop1, stop2, write)
    ensures k < |es| && Added(es, name, sector, stop1, stop2, write) == es[k := Entry(sector, name, true)]
    ensures (forall j | 0 <= j < k :: es[j].inUse) && k <= stop2 && (k < stop2 ==> !es[k].inUse)
    ensures IsFound(Added(es, name, sector, stop1, stop2, write), name)
  {
    k := FreeSlot(es, stop2);
    var es' := Added(es, name, sector, stop1, stop2, write);
    assert Named(es'[k], name);
  }

  /** Each name has at most one entry in use. */
  ghost predicate UniqueNames(es: seq<Entry>) {
    forall i, j | 0 <= i < j < |es| && es[i].inUse && es[j].inUse :: es[i].name != es[j].name
  }

  /** The call overlooks an entry of the same name and writes another slot. */
  ghost predicate Overlooked(es: seq<Entry>, name: seq<Byte>, stop1: nat, stop2: nat, write: bool) {
    && ValidName(name) && write && FreeSlot(es, stop2) < |es|
    && Find(es, name, stop1) == stop1
    && exists j | stop1 <= j < |es| :: j != FreeSlot(es, stop2) && Named(es[j], name)
  }

  /** dir_add keeps names unique exactly when its lookup does not give up, for lack of memory,
      before an entry that has the name. */
  lemma UniqueExactly(es: seq<Entry>, name: seq<Byte>, sector: nat, stop1: nat, stop2: nat, write: bool)
    requires UniqueNames(es)
    ensures UniqueNames(Added(es, name, sector, stop1, stop2, write)) <==> !Overlooked(es, name, stop1, stop2, write)
  {
    var k := FreeSlot(es, stop2);
    var es' := Added(es, name, sector, stop1, stop2, write);
    if Overlooked(es, name, stop1, stop2, write) {
      var j :| stop1 <= j < |es| && j != k && Named(es[j], name);
      assert es' == es[k := Entry(sector, name, true)];
      assert es'[j] == es[j] && es'[k].name == name;
    } else if es' != es {
      forall j | 0 <= j < |es| && j != k ensures !Named(es[j], name) {}
      forall j | 0 <= j < |es| && j != k && es[j].inUse ensures es[j].name != name { assert !Named(es[j], name); }
    }
  }

  /** One failure is enough: with "a" in the first slot, a call that gets no memory for its first
      read lists "a" again in any free slot. */
  lemma DuplicateName(es: seq<Entry>, k: nat, sector: nat)
    requires |es| == ROOT_ENTRIES && Named(es[0], [97]) && k < ROOT_ENTRIES && !es[k].inUse
    ensures CanList(es, [97], 0, ROOT_ENTRIES, true) && !UniqueNames(Added(es, [97], sector, 0, ROOT_ENTRIES, true))
  {
    var j := FreeSlot(es, ROOT_ENTRIES);
    assert ValidName([97]) && 0 < j <= k;
    var es' := Added(es, [97], sector, 0, ROOT_ENTRIES, true);
    assert es'[0] == es[0] && es'[j] == Entry(sector, [97], true);
  }

  /** NAME is found when memory can be had for every read. */
  predicate IsFound(es: seq<Entry>, name: seq<Byte>) { Find(es, name, |es|) < |es| }

  /** The call takes a slot in use, since its search for a free one gives up there, and no other
      slot has the same name. */
  ghost predicate Overwrites(es: seq<Entry>, name: seq<Byte>, stop1: nat, stop2: nat, write: bool) {
    && CanList(es, name, stop1, stop2, write) && stop2 < |es| && (forall j | 0 <= j <= stop2 :: es[j].inUse)
    && es[stop2].name != name && forall j | 0 <= j < |es| && j != stop2 :: !Named(es[j], es[stop2].name)
  }

  /** dir_add keeps every name that was found exactly when it does not overwrite one. */
  lemma OverwritesExactly(es: seq<Entry>, name: seq<Byte>, sector: nat, stop1: nat, stop2: nat, write: bool)
    ensures var es' := Added(es, name, sector, stop1, stop2, write);
            (forall x :: IsFound(es, x) ==> IsFound(es', x)) <==> !Overwrites(es, name, stop1, stop2, write)
  {
    var k, es' := FreeSlot(es, stop2), Added(es, name, sector, stop1, stop2, write);
    if Overwrites(es, name, stop1, stop2, write) {
      assert k == stop2;
      NameLost(es, es', k, name, sector);
    } else if es' != es {
      forall x | IsFound(es, x) ensures IsFound(es', x) { NameStays(es, es', k, name, sector, stop2, x); }
    }
  }

  lemma NameLost(es: seq<Entry>, es': seq<Entry>, k: nat, name: seq<Byte>, sector: nat)
    requires k < |es| && es' == es[k := Entry(sector, name, true)] && es[k].inUse && es[k].name != name
    requires forall j | 0 <= j < |es| && j != k :: !Named(es[j], es[k].name)
    ensures IsFound(es, es[k].name) && !IsFound(es', es[k].name)
  {
    assert Named(es[k], es[k].name);
    forall j | 0 <= j < |es'| ensures !Named(es'[j], es[k].name) {
      if j != k { assert es'[j] == es[j]; }
    }
  }

  lemma NameStays(es: seq<Entry>, es': seq<Entry>, k: nat, name: seq<Byte>, sector: nat, stop: nat, x: seq<Byte>)
    requires k < |es| && k == FreeSlot(es, stop) && es' == es[k := Entry(sector, name, true)] && IsFound(es, x)
    requires !(stop < |es| && (forall j | 0 <= j <= stop :: es[j].inUse) && es[stop].name != name
               && forall j | 0 <= j < |es| && j != stop :: !Named(es[j], es[stop].name))
    ensures IsFound(es', x)
  {
    var j := Find(es, x, |es|);
    if j != k {
      assert es'[j] == es[j];
    } else if es[k].name == name {
      assert Named(es'[k], x);
    } else {
      assert es[k].inUse && k == stop;
      var i :| 0 <= i < |es| && i != stop && Named(es[i], es[stop].name);
      assert es'[i] == es[i];
    }
  }
}
