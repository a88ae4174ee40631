/** The in-memory inodes of filesys/inode.c and the open files of filesys/file.c that refer to
    them. Pointers are addresses; LOOSE counts the references held by code under way. */
module InodeTable {
  import opened Common
  import opened InodeIO

  /** struct inode */
  datatype Inode = Inode(sector: nat, openCnt: nat, removed: bool, denyCnt: nat, data: Extent)

  /** struct file */
  datatype File = File(inode: nat, pos: nat, deny: bool)

  ghost function Openers(files: map<nat, File>, i: nat): set<nat> { set f | f in files && files[f].inode == i }

  ghost function Deniers(files: map<nat, File>, i: nat): set<nat> {
    set f | f in files && files[f].inode == i && files[f].deny
  }

  /** The counters of the inode at address I. */
  ghost predicate CountersOk(inode: Inode, files: map<nat, File>, loose: multiset<nat>, i: nat) {
    inode.openCnt == |Openers(files, i)| + loose[i] && inode.openCnt > 0 && inode.denyCnt == |Deniers(files, i)|
  }

  /** open_inodes lists the inodes, no two for the same sector; every reference leads to one;
      the counters count references. */
  ghost predicate TableOk(inodes: map<nat, Inode>, open: seq<nat>, files: map<nat, File>, loose: multiset<nat>) {
    && Distinct(open) && (forall i :: i in open <==> i in inodes)
    && (forall i, j | i in inodes && j in inodes && i != j :: inodes[i].sector != inodes[j].sector)
    && (forall f | f in files :: files[f].inode in inodes)
    && (forall i | i in loose :: i in inodes)
    && (forall i | i in inodes :: CountersOk(inodes[i], files, loose, i))
  }

  /** Writes are denied by some of the openers. */
  lemma DenyAtMostOpen(inodes: map<nat, Inode>, open: seq<nat>, files: map<nat, File>, loose: multiset<nat>, i: nat)
    requires TableOk(inodes, open, files, loose) && i in inodes
    ensures inodes[i].denyCnt + loose[i] <= inodes[i].openCnt
  {
    assert CountersOk(inodes[i], files, loose, i);
    SubsetSize(Deniers(files, i), Openers(files, i));
  }

  lemma {:induction false} SubsetSize(a: set<nat>, b: set<nat>)
    requires a <= b
    ensures |a| <= |b|
  {
    if a != {} {
      var x :| x in a;
      SubsetSize(a - {x}, b - {x});
    }
  }

  /** inode_reopen */
  lemma Reopened(inodes: map<nat, Inode>, open: seq<nat>, files: map<nat, File>, loose: multiset<nat>, i: nat)
    requires TableOk(inodes, open, files, loose) && i in inodes
    ensures TableOk(inodes[i := inodes[i].(openCnt := inodes[i].openCnt + 1)], open, files, loose + multiset{i})
  {
    var inodes' := inodes[i := inodes[i].(openCnt := inodes[i].openCnt + 1)];
    forall j | j in inodes'
      ensures CountersOk(inodes'[j], files, loose + multiset{i}, j)
    {
      assert CountersOk(inodes[j], files, loose, j);
    }
  }

  /** A new in-memory inode at the front of the list. */
  lemma Opened(inodes: map<nat, Inode>, open: seq<nat>, files: map<nat, File>, loose: multiset<nat>, i: nat,
               sector: nat, data: Extent)
    requires TableOk(inodes, open, files, loose) && i !in inodes && forall j | j in inodes :: inodes[j].sector != sector
    ensures TableOk(inodes[i := Inode(sector, 1, false, 0, data)], [i] + open, files, loose + multiset{i})
  {
    var inodes' := inodes[i := Inode(sector, 1, false, 0, data)];
    assert Openers(files, i) == {} && Deniers(files, i) == {} && loose[i] == 0;
    forall j | j in inodes' ensures CountersOk(inodes'[j], files, loose + multiset{i}, j) {
      if j != i { assert CountersOk(inodes[j], files, loose, j); }
    }
  }

  /** A reference is given up while others remain... */
  lemma Dropped(inodes: map<nat, Inode>, open: seq<nat>, files: map<nat, File>, loose: multiset<nat>, i: nat)
    requires TableOk(inodes, open, files, loose) && i in loose && inodes[i].openCnt > 1
    ensures TableOk(inodes[i := inodes[i].(openCnt := inodes[i].openCnt - 1)], open, files, loose - multiset{i})
  {
    var inodes' := inodes[i := inodes[i].(openCnt := inodes[i].openCnt - 1)];
    forall j | j in inodes'
      ensures CountersOk(inodes'[j], files, loose - multiset{i}, j)
    {
      assert CountersOk(inodes[j], files, loose, j);
    }
  }

  /** ... or the last one, and the inode with it. */
  lemma Closed(inodes: map<nat, Inode>, open: seq<nat>, files: map<nat, File>, loose: multiset<nat>, i: nat,
               open': seq<nat>)
    requires TableOk(inodes, open, files, loose) && i in loose && inodes[i].openCnt == 1
    requires Distinct(open') && forall j :: j in open' <==> j in open && j != i
    ensures TableOk(inodes - {i}, open', files, loose - multiset{i})
    ensures Openers(files, i) == {}
  {
    var inodes' := inodes - {i};
    assert CountersOk(inodes[i], files, loose, i);
    assert |Openers(files, i)| == 0;
    forall f | f in files ensures files[f].inode != i { assert f in Openers(files, files[f].inode); }
    forall j | j in inodes'
      ensures CountersOk(inodes'[j], files, loose - multiset{i}, j)
    {
      assert CountersOk(inodes[j], files, loose, j);
    }
  }

  /** file_open takes over a reference. */
  lemma FileAdded(inodes: map<nat, Inode>, open: seq<nat>, files: map<nat, File>, loose: multiset<nat>, i: nat, f: nat)
    requires TableOk(inodes, open, files, loose) && i in loose && f !in files
    ensures TableOk(inodes, open, files[f := File(i, 0, false)], loose - multiset{i})
  {
    var files' := files[f := File(i, 0, false)];
    forall j | j in inodes
      ensures CountersOk(inodes[j], files', loose - multiset{i}, j)
    {
      CountersAdded(inodes[j], files, loose, i, f, j);
    }
  }

  lemma CountersAdded(inode: Inode, files: map<nat, File>, loose: multiset<nat>, i: nat, f: nat, j: nat)
    requires CountersOk(inode, files, loose, j) && i in loose && f !in files
    ensures CountersOk(inode, files[f := File(i, 0, false)], loose - multiset{i}, j)
  {
    OpenerAdded(files, i, f, j);
  }

  lemma OpenerAdded(files: map<nat, File>, i: nat, f: nat, j: nat)
    requires f !in files
    ensures Deniers(files[f := File(i, 0, false)], j) == Deniers(files, j)
    ensures |Openers(files[f := File(i, 0, false)], j)| == |Openers(files, j)| + if j == i then 1 else 0
  {
    var files' := files[f := File(i, 0, false)];
    if j == i {
      assert f !in Openers(files, j) && Openers(files', j) == Openers(files, j) + {f};
    } else {
      assert Openers(files', j) == Openers(files, j);
    }
  }

  /** file_close gives the reference back to be closed. */
  lemma FileRemoved(inodes: map<nat, Inode>, open: seq<nat>, files: map<nat, File>, loose: multiset<nat>, f: nat)
    requires TableOk(inodes, open, files, loose) && f in files && !files[f].deny
    ensures TableOk(inodes, open, files - {f}, loose + multiset{files[f].inode})
  {
    var i, files' := files[f].inode, files - {f};
    forall j | j in inodes ensures CountersOk(inodes[j], files', loose + multiset{i}, j) {
      assert CountersOk(inodes[j], files, loose, j);
      assert Openers(files', j) == if j == i then Openers(files, j) - {f} else Openers(files, j);
      assert f in Openers(files, i) && Deniers(files', j) == Deniers(files, j);
    }
  }

  /** file_deny_write and file_allow_write on a file where they change something. */
  lemma DenyChanged(inodes: map<nat, Inode>, open: seq<nat>, files: map<nat, File>, loose: multiset<nat>, f: nat)
    requires TableOk(inodes, open, files, loose) && f in files
    ensures var i := files[f].inode;
            if files[f].deny then
              && inodes[i].denyCnt > 0
              && TableOk(inodes[i := inodes[i].(denyCnt := inodes[i].denyCnt - 1)], open,
                    files[f := files[f].(deny := false)], loose)
            else
              && inodes[i].denyCnt < inodes[i].openCnt
              && TableOk(inodes[i := inodes[i].(denyCnt := inodes[i].denyCnt + 1)], open,
                    files[f := files[f].(deny := true)], loose)
  {
    hide Distinct, Openers, Deniers;
    var i, deny := files[f].inode, files[f].deny;
    var files' := files[f := files[f].(deny := !deny)];
    assert CountersOk(inodes[i], files, loose, i);
    DenierChanged(inodes[i], files, loose, f);
    var cnt: nat := if deny then inodes[i].denyCnt - 1 else inodes[i].denyCnt + 1;
    var inodes' := inodes[i := inodes[i].(denyCnt := cnt)];
    forall j | j in inodes' ensures CountersOk(inodes'[j], files', loose, j) {
      if j != i {
        assert CountersOk(inodes[j], files, loose, j);
        DenierElsewhere(files, f, j);
      }
    }
  }

  lemma DenierElsewhere(files: map<nat, File>, f: nat, j: nat)
    requires f in files && files[f].inode != j
    ensures var files' := files[f := files[f].(deny := !files[f].deny)];
            Openers(files', j) == Openers(files, j)
            && Deniers(files', j) == Deniers(files, j)
  {
  }

  lemma DenierChanged(inode: Inode, files: map<nat, File>, loose: multiset<nat>, f: nat)
    requires f in files && CountersOk(inode, files, loose, files[f].inode)
    ensures if files[f].deny then
              && inode.denyCnt > 0
              && CountersOk(inode.(denyCnt := inode.denyCnt - 1), files[f := files[f].(deny := false)], loose,
                    files[f].inode)
            else
              && inode.denyCnt < inode.openCnt
              && CountersOk(inode.(denyCnt := inode.denyCnt + 1), files[f := files[f].(deny := true)], loose,
                    files[f].inode)
  {
    var i, deny := files[f].inode, files[f].deny;
    var files' := files[f := files[f].(deny := !deny)];
    assert f in Openers(files, i) && Openers(files', i) == Openers(files, i);
    if deny {
      assert f in Deniers(files, i) && Deniers(files', i) == Deniers(files, i) - {f};
    } else {
      SubsetSize(Deniers(files, i), Openers(files, i) - {f});
      assert Deniers(files', i) == Deniers(files, i) + {f};
    }
  }

  /** A change of position or of the removed mark is nobody's business. */
  lemma Unrelated(inodes: map<nat, Inode>, inodes': map<nat, Inode>, open: seq<nat>, files: map<nat, File>,
                  files': map<nat, File>, loose: multiset<nat>)
    requires TableOk(inodes, open, files, loose) && inodes'.Keys == inodes.Keys && files'.Keys == files.Keys
    requires forall i | i in inodes :: inodes'[i].(removed := inodes[i].removed) == inodes[i]
    requires forall f | f in files :: files'[f].(pos := files[f].pos) == files[f]
    ensures TableOk(inodes', open, files', loose)
  {
    forall j | j in inodes' ensures CountersOk(inodes'[j], files', loose, j) {
      assert CountersOk(inodes[j], files, loose, j);
      assert inodes'[j].(removed := inodes[j].removed) == inodes[j];
      forall f | f in files
        ensures files'[f].inode == files[f].inode && files'[f].deny == files[f].deny
      {
        assert files'[f].(pos := files[f].pos) == files[f];
      }
      assert Openers(files', j) == Openers(files, j) && Deniers(files', j) == Deniers(files, j);
    }
    forall i | i in inodes
      ensures inodes'[i].sector == inodes[i].sector
    {
      assert inodes'[i].(removed := inodes[i].removed) == inodes[i];
    }
    forall f | f in files
      ensures files'[f].inode == files[f].inode
    {
      assert files'[f].(pos := files[f].pos) == files[f];
    }
  }
}
