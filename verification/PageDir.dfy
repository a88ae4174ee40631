/** userprog/pagedir.c and threads/pte.h: a two-level page table is a map from user pages to
    frames. Addresses and entries are 32-bit numbers; the bit operators are those of Bits. */
module PageDir {
  import opened Bits
  import opened Common

  const ENTRIES: nat := 1024
  const USER_TABLES: nat := 768          // pd_no (PHYS_BASE)

  const PTE_ADDR: nat := 0xFFFF_F000
  const PTE_P: nat := 1
  const PTE_W: nat := 2
  const PTE_U: nat := 4
  const PTE_A: nat := 0x20
  const PTE_D: nat := 0x40

  // ---- addresses ----

  predicate IsUserPage(u: nat) { u % PGSIZE == 0 && u < PHYS_BASE }

  /** A page-aligned kernel address. */
  predicate IsKernelPage(k: nat) { k % PGSIZE == 0 && PHYS_BASE <= k < 0x1_0000_0000 }

  function PdNo(va: nat): nat { va / 0x40_0000 }

  function PtNo(va: nat): nat { va / PGSIZE % ENTRIES }

  /** The two indexes and the offset determine the address. */
  lemma IndexesDetermine(u: nat)
    requires u < PHYS_BASE
    ensures PdNo(u) < USER_TABLES && PtNo(u) < ENTRIES && u / PGSIZE == PdNo(u) * ENTRIES + PtNo(u)
  {
    assert u / 0x40_0000 == u / PGSIZE / ENTRIES;
  }

  function PageAt(i: nat, j: nat): nat { (i * ENTRIES + j) * PGSIZE }

  lemma PageAtIndexes(i: nat, j: nat)
    requires i < USER_TABLES && j < ENTRIES
    ensures IsUserPage(PageAt(i, j)) && PdNo(PageAt(i, j)) == i && PtNo(PageAt(i, j)) == j
  {
    var u := PageAt(i, j);
    assert u / PGSIZE == i * ENTRIES + j;
    IndexesDetermine(u);
  }

  // ---- entries ----

  /** vtop and ptov */
  function VtoP(k: nat): nat
    requires k >= PHYS_BASE
  {
    k - PHYS_BASE
  }

  function PtoV(p: nat): nat { p + PHYS_BASE }

  /** pde_create */
  function PdeCreate(pt: nat): nat
    requires pt >= PHYS_BASE
  {
    Or(Or(Or(VtoP(pt), PTE_U), PTE_P), PTE_W)
  }

  /** pte_create_user */
  function PteCreateUser(page: nat, writable: bool): nat
    requires page >= PHYS_BASE
  {
    Or(Or(Or(VtoP(page), PTE_P), if writable then PTE_W else 0), PTE_U)
  }

  /** pde_get_pt and pte_get_page */
  function PageOf(e: nat): nat { PtoV(And(e, PTE_ADDR)) }

  predicate Present(e: nat) { And(e, PTE_P) != 0 }

  predicate Writable(e: nat) { And(e, PTE_W) != 0 }

  lemma {:induction false} OrShifted(q: nat, f: nat, g: nat, n: nat)
    requires f < Pow2(n) && g < Pow2(n)
    ensures Or(q * Pow2(n) + f, g) == q * Pow2(n) + Or(f, g) && Or(f, g) < Pow2(n)
    decreases n
  {
    hide Or;
    if n > 0 {
      var a := q * Pow2(n - 1);
      assert q * Pow2(n) == 2 * a;
      assert (2 * a + f) / 2 == a + f / 2 && (2 * a + f) % 2 == f % 2;
      OrShifted(q, f / 2, g / 2, n - 1);
      OrStep(2 * a + f, g);
      OrStep(f, g);
    } else {
      OrZero(q);
      OrZero(0);
    }
  }

  lemma {:induction false} OrZero(a: nat)
    ensures Or(a, 0) == a
  {
    if a > 0 { OrZero(a / 2); }
  }

  lemma {:induction false} AndShifted(q: nat, f: nat, m: nat, n: nat)
    requires f < Pow2(n)
    ensures And(q * Pow2(n) + f, m * Pow2(n)) == And(q, m) * Pow2(n)
    decreases n
  {
    hide And;
    if n > 0 {
      var a, b := q * Pow2(n - 1), m * Pow2(n - 1);
      Doubled(q, Pow2(n - 1));
      Doubled(m, Pow2(n - 1));
      Doubled(And(q, m), Pow2(n - 1));
      AndDoubled(a + f / 2, b, f % 2);
      AndShifted(q, f / 2, m, n - 1);
    }
  }

  lemma Doubled(x: nat, p: nat)
    ensures x * (2 * p) == 2 * (x * p)
  {
  }

  lemma AndDoubled(a: nat, b: nat, f: nat)
    requires f < 2
    ensures And(2 * a + f, 2 * b) == 2 * And(a, b)
  {
    assert (2 * a + f) / 2 == a && 2 * b / 2 == b && 2 * b % 2 == 0;
  }

  lemma {:induction false} AndMask(q: nat, n: nat)
    requires q < Pow2(n)
    ensures And(q, Pow2(n) - 1) == q
    decreases n
  {
    if n > 0 {
      assert (Pow2(n) - 1) / 2 == Pow2(n - 1) - 1;
      AndMask(q / 2, n - 1);
    }
  }

  lemma Pow2Page()
    ensures Pow2(12) == PGSIZE && Pow2(20) == 0x10_0000
  {
    Pow2Words();
    Pow2Add(8, 4);
    Pow2Add(16, 4);
  }

  /** The address part of an entry is what is above the flags. */
  lemma AddressPart(q: nat, f: nat)
    requires q < 0x10_0000 && f < PGSIZE
    ensures And(q * PGSIZE + f, PTE_ADDR) == q * PGSIZE
  {
    Pow2Page();
    AndShifted(q, f, 0xF_FFFF, 12);
    AndMask(q, 20);
  }

  /** Setting a flag leaves the address. */
  lemma FlagSet(q: nat, f: nat, g: nat)
    requires f < PGSIZE && g < PGSIZE
    ensures Or(q * PGSIZE + f, g) == q * PGSIZE + Or(f, g) && Or(f, g) < PGSIZE
  {
    Pow2Page();
    OrShifted(q, f, g, 12);
  }

  lemma SmallFlags()
    ensures Or(0, 1) == 1 && Or(0, 4) == 4 && Or(1, 0) == 1 && Or(1, 2) == 3 && Or(1, 4) == 5 && Or(3, 4) == 7
            && Or(4, 1) == 5 && Or(5, 2) == 7
  {
  }

  lemma LowBits(e: nat)
    ensures Present(e) <==> e % 2 == 1
    ensures Writable(e) <==> e / 2 % 2 == 1
  {
    SingleBit(e, 0);
    SingleBit(e, 1);
    assert Pow2(1) == 2;
  }

  lemma PteBits(q: nat, writable: bool)
    requires q < 0x4_0000
    ensures PteCreateUser(PtoV(q * PGSIZE), writable) == q * PGSIZE + if writable then 7 else 5
    ensures PdeCreate(PtoV(q * PGSIZE)) == q * PGSIZE + 7
  {
    SmallFlags();
    hide Or;
    FlagSet(q, 0, PTE_P);
    FlagSet(q, 1, if writable then PTE_W else 0);
    FlagSet(q, if writable then 3 else 1, PTE_U);
    FlagSet(q, 0, PTE_U);
    FlagSet(q, 4, PTE_P);
    FlagSet(q, 5, PTE_W);
  }

  /** An entry gives back the page and the permission that it was made of; besides it has the bits that
      make it present, writable and the user's. */
  lemma EntryRoundTrip(page: nat, writable: bool)
    requires IsKernelPage(page)
    ensures var e := PteCreateUser(page, writable);
            0 < e < 0x1_0000_0000 && Present(e) && PageOf(e) == page
            && Writable(e) == writable && e % 8 == (if writable then 7 else 5)
    ensures var e := PdeCreate(page);
            0 < e < 0x1_0000_0000 && Present(e) && PageOf(e) == page && e % 8 == 7
  {
    hide And, Or;
    var q := VtoP(page) / PGSIZE;
    assert VtoP(page) == q * PGSIZE;
    PteBits(q, writable);
    AddressPart(q, if writable then 7 else 5);
    AddressPart(q, 7);
    FlagsOf(q, if writable then 7 else 5);
    FlagsOf(q, 7);
  }

  lemma FlagsOf(q: nat, f: nat)
    requires f < 8
    ensures (Present(q * PGSIZE + f) <==> f % 2 == 1) && (Writable(q * PGSIZE + f) <==> f / 2 % 2 == 1)
    ensures (q * PGSIZE + f) % 8 == f
  {
    hide And;
    var e := q * PGSIZE + f;
    LowBits(e);
    EvenPlus(q * 2048, f);
    EvenPlus(q * 1024, f / 2);
    LowThree(q, f);
  }

  lemma LowThree(q: nat, f: nat)
    requires f < 8
    ensures (q * PGSIZE + f) % 8 == f
  {
    assert q * PGSIZE == 8 * (512 * q);
  }

  lemma EvenPlus(a: nat, b: nat)
    ensures (2 * a + b) % 2 == b % 2 && (2 * a + b) / 2 == a + b / 2
  {
  }

  /** *pte &= ~PTE_P */
  lemma Cleared(e: nat)
    requires e < 0x1_0000_0000
    ensures !Present(AndNot(e, PTE_P)) && AndNot(e, PTE_P) < 0x1_0000_0000
  {
    LowBits(AndNot(e, 1));
    Pair(e % 2 == 1 && 1 % 2 == 0, AndNot(e / 2, 0));
    Pow2Words();
    WordSized(e, 1, 32);
  }

  /** Setting or clearing the accessed or dirty bit leaves the rest of the entry. */
  lemma FlagChanged(e: nat, flag: nat, e': nat)
    requires e < 0x1_0000_0000 && (flag == PTE_A || flag == PTE_D) && (e' == Or(e, flag) || e' == AndNot(e, flag))
    ensures e' < 0x1_0000_0000 && Present(e') == Present(e) && Writable(e') == Writable(e) && PageOf(e') == PageOf(e)
  {
    Pow2Words();
    Pow2Page();
    hide And, Or, AndNot;
    var q, f := e / PGSIZE, e % PGSIZE;
    assert e == q * PGSIZE + f;
    FlagSet(q, f, flag);
    FlagUnset(q, f, flag);
    AddressPart(q, f);
    AddressPart(q, Or(f, flag));
    AddressPart(q, AndNot(f, flag));
    WordSized(e, flag, 32);
    FlagBits(e, flag, 0);
    FlagBits(e, flag, 1);
    SingleBit(e, 0);
    SingleBit(e', 0);
    SingleBit(e, 1);
    SingleBit(e', 1);
  }

  /** Setting or clearing one of the two flags leaves the other alone. */
  lemma FlagSetTo(e: nat, flag: nat, on: bool)
    requires flag == PTE_A || flag == PTE_D
    ensures var e', other := if on then Or(e, flag) else AndNot(e, flag), if flag == PTE_A then PTE_D else PTE_A;
            && (And(e', flag) != 0 <==> on)
            && (And(e', other) != 0 <==> And(e, other) != 0)
  {
    Pow2Words();
    assert Pow2(5) == PTE_A && Pow2(6) == PTE_D;
    hide And, Or, AndNot, Bit, Pow2;
    var i, j := if flag == PTE_A then 5 else 6, if flag == PTE_A then 6 else 5;
    var e' := if on then Or(e, flag) else AndNot(e, flag);
    forall k | k == i || k == j ensures Bit(e', k) <==> if k == i then on else Bit(e, k) {
      BitOr(e, flag, k);
      BitAndNot(e, flag, k);
      BitOfPow2(i, k);
    }
    SingleBit(e', i);
    SingleBit(e', j);
    SingleBit(e, j);
  }

  lemma FlagBits(e: nat, flag: nat, k: nat)
    requires (flag == PTE_A || flag == PTE_D) && k < 2
    ensures Bit(Or(e, flag), k) == Bit(e, k) && Bit(AndNot(e, flag), k) == Bit(e, k)
  {
    BitOr(e, flag, k);
    BitAndNot(e, flag, k);
    assert !Bit(flag, 0) && !Bit(flag, 1);
  }

  lemma FlagUnset(q: nat, f: nat, g: nat)
    requires f < PGSIZE && g < PGSIZE
    ensures AndNot(q * PGSIZE + f, g) == q * PGSIZE + AndNot(f, g) && AndNot(f, g) < PGSIZE
  {
    Pow2Page();
    AndNotShifted(q, f, g, 12);
  }

  lemma AndNotStep(x: nat, g: nat)
    ensures AndNot(x, g) == Low(x % 2 == 1 && g % 2 == 0) + 2 * AndNot(x / 2, g / 2)
  {
  }

  lemma OrStep(x: nat, g: nat)
    ensures Or(x, g) == Low(x % 2 == 1 || g % 2 == 1) + 2 * Or(x / 2, g / 2)
  {
  }

  lemma {:induction false} AndNotShifted(q: nat, f: nat, g: nat, n: nat)
    requires f < Pow2(n) && g < Pow2(n)
    ensures AndNot(q * Pow2(n) + f, g) == q * Pow2(n) + AndNot(f, g) && AndNot(f, g) < Pow2(n)
    decreases n
  {
    hide AndNot;
    if n > 0 {
      var a := q * Pow2(n - 1);
      assert q * Pow2(n) == 2 * a;
      assert (2 * a + f) / 2 == a + f / 2 && (2 * a + f) % 2 == f % 2;
      AndNotShifted(q, f / 2, g / 2, n - 1);
      AndNotStep(2 * a + f, g);
      AndNotStep(f, g);
    } else {
      AndNotZero(q);
      AndNotZero(0);
    }
  }

  lemma {:induction false} AndNotZero(a: nat)
    ensures AndNot(a, 0) == a
  {
    if a > 0 { AndNotZero(a / 2); }
  }

  // ---- the directory and its tables ----

  datatype Frame = Frame(page: nat, writable: bool)

  function FrameOf(e: nat): Frame { Frame(PageOf(e), Writable(e)) }

  /** User entries of the directory are empty or lead to tables, each to its own. */
  ghost predicate ShapeOk(pd: seq<nat>, tables: map<nat, seq<nat>>) {
    && |pd| == ENTRIES
    && (forall i | 0 <= i < USER_TABLES && pd[i] != 0 :: Present(pd[i]) && PageOf(pd[i]) in tables)
    && (forall i, j | 0 <= i < j < USER_TABLES && pd[i] != 0 && pd[j] != 0 :: PageOf(pd[i]) != PageOf(pd[j]))
    && (forall t | t in tables :: TableShape(tables[t]))
  }

  predicate TableShape(t: seq<nat>) { |t| == ENTRIES && forall j | 0 <= j < ENTRIES :: t[j] < 0x1_0000_0000 }

  /** Word J of table T becomes E. */
  function Stored(tables: map<nat, seq<nat>>, t: nat, j: nat, e: nat): map<nat, seq<nat>>
    requires t in tables && j < |tables[t]|
  {
    var row: seq<nat> := tables[t][j := e];
    tables[t := row]
  }

  /** The entry for user address U; 0 if there is no table for it. */
  ghost function EntryFor(pd: seq<nat>, tables: map<nat, seq<nat>>, u: nat): nat
    requires ShapeOk(pd, tables) && u < PHYS_BASE
  {
    IndexesDetermine(u);
    if pd[PdNo(u)] == 0 then 0 else tables[PageOf(pd[PdNo(u)])][PtNo(u)]
  }

  /** The entries that are present are the mapping. */
  ghost predicate MapsTo(pd: seq<nat>, tables: map<nat, seq<nat>>, mapping: map<nat, Frame>) {
    && ShapeOk(pd, tables)
    && (forall u | u in mapping :: IsUserPage(u))
    && (forall u | IsUserPage(u) :: u in mapping <==> Present(EntryFor(pd, tables, u)))
    && (forall u | u in mapping && IsUserPage(u) :: mapping[u] == FrameOf(EntryFor(pd, tables, u)))
  }

  /** A new table, all zeros, maps nothing. */
  lemma TableAdded(pd: seq<nat>, tables: map<nat, seq<nat>>, mapping: map<nat, Frame>, i: nat, t: nat, zeros: seq<nat>)
    requires MapsTo(pd, tables, mapping) && i < USER_TABLES && pd[i] == 0 && IsKernelPage(t) && t !in tables
    requires |zeros| == ENTRIES && forall j | 0 <= j < ENTRIES :: zeros[j] == 0
    ensures PdeCreate(t) != 0 && PageOf(PdeCreate(t)) == t && MapsTo(pd[i := PdeCreate(t)], tables[t := zeros], mapping)
  {
    hide PdeCreate, PageOf, Present, Writable;
    EntryRoundTrip(t, false);
    NotPresentZero();
    var pd', tables' := pd[i := PdeCreate(t)], tables[t := zeros];
    assert ShapeOk(pd', tables');
    forall u | IsUserPage(u) ensures EntryFor(pd', tables', u) == EntryFor(pd, tables, u) { IndexesDetermine(u); }
  }

  lemma NotPresentZero()
    ensures !Present(0)
  {
  }

  /** Writing the entry for page U changes the translation of U only. */
  lemma EntryStored(pd: seq<nat>, tables: map<nat, seq<nat>>, mapping: map<nat, Frame>, u: nat, e: nat)
    requires MapsTo(pd, tables, mapping) && IsUserPage(u) && PdNo(u) < USER_TABLES && PtNo(u) < ENTRIES
             && pd[PdNo(u)] != 0 && e < 0x1_0000_0000
    ensures var t := PageOf(pd[PdNo(u)]);
            && t in tables && |tables[t]| == ENTRIES
            && MapsTo(pd, Stored(tables, t, PtNo(u), e), if Present(e) then mapping[u := FrameOf(e)] else mapping - {u})
            && forall v | IsUserPage(v) ::
                 EntryFor(pd, Stored(tables, t, PtNo(u), e), v) == if v == u then e else EntryFor(pd, tables, v)
  {
    hide PageOf, Present, Writable;
    var t := PageOf(pd[PdNo(u)]);
    var tables' := Stored(tables, t, PtNo(u), e);
    assert ShapeOk(pd, tables');
    forall v | IsUserPage(v)
      ensures EntryFor(pd, tables', v) == if v == u then e else EntryFor(pd, tables, v)
    {
      Elsewhere(pd, tables, u, v, e);
    }
  }

  lemma Elsewhere(pd: seq<nat>, tables: map<nat, seq<nat>>, u: nat, v: nat, e: nat)
    requires ShapeOk(pd, tables) && IsUserPage(u) && IsUserPage(v) && PdNo(u) < USER_TABLES && PtNo(u) < ENTRIES
             && pd[PdNo(u)] != 0 && e < 0x1_0000_0000
    ensures var t := PageOf(pd[PdNo(u)]);
            && ShapeOk(pd, Stored(tables, t, PtNo(u), e))
            && EntryFor(pd, Stored(tables, t, PtNo(u), e), v) == if v == u then e else EntryFor(pd, tables, v)
  {
    hide PageOf, Present, Writable;
    IndexesDetermine(u);
    IndexesDetermine(v);
    assert v != u ==> PdNo(v) != PdNo(u) || PtNo(v) != PtNo(u);
    assert PdNo(v) != PdNo(u) && pd[PdNo(v)] != 0 ==> PageOf(pd[PdNo(v)]) != PageOf(pd[PdNo(u)]);
  }

  // ---- what pagedir_destroy frees ----

  /** How many of the first N user pages are mapped to frame X. */
  ghost function FrameCount(mapping: map<nat, Frame>, n: nat, x: nat): nat {
    if n == 0 then 0
    else FrameCount(mapping, n - 1, x)
         + if (n - 1) * PGSIZE in mapping && mapping[(n - 1) * PGSIZE].page == x then 1 else 0
  }

  /** How many of the first N directory entries lead to table X. */
  ghost function TableCount(pd: seq<nat>, n: nat, x: nat): nat
    requires n <= |pd|
  {
    if n == 0 then 0 else TableCount(pd, n - 1, x) + if Present(pd[n - 1]) && PageOf(pd[n - 1]) == x then 1 else 0
  }

  /** Frames mapped once are counted once... */
  lemma {:induction false} FrameCountOnce(mapping: map<nat, Frame>, n: nat, x: nat)
    requires forall u, v | u in mapping && v in mapping && u != v :: mapping[u].page != mapping[v].page
    ensures FrameCount(mapping, n, x) <= 1
    ensures FrameCount(mapping, n, x) == 1 <==>
              exists u :: u in mapping && u % PGSIZE == 0 && u / PGSIZE < n && mapping[u].page == x
  {
    if n > 0 {
      FrameCountOnce(mapping, n - 1, x);
      var u := (n - 1) * PGSIZE;
      assert u / PGSIZE == n - 1 && u % PGSIZE == 0;
      forall v | v in mapping && v % PGSIZE == 0 && v / PGSIZE == n - 1 ensures v == u {}
    }
  }

  /** ... and so is each table. */
  lemma {:induction false} TableCountOnce(pd: seq<nat>, n: nat, x: nat)
    requires n <= |pd| && forall i, j | 0 <= i < j < n && Present(pd[i]) && Present(pd[j]) ::
               PageOf(pd[i]) != PageOf(pd[j])
    ensures TableCount(pd, n, x) <= 1
    ensures TableCount(pd, n, x) == 1 <==> exists i :: 0 <= i < n && Present(pd[i]) && PageOf(pd[i]) == x
  {
    hide Present, PageOf;
    if n > 0 { TableCountOnce(pd, n - 1, x); }
  }

  /** X is a frame, a table or the directory itself. */
  ghost predicate Referenced(pd: seq<nat>, mapping: map<nat, Frame>, address: nat, x: nat)
    requires |pd| == ENTRIES
  {
    x == address || IsTable(pd, x) || IsFrame(mapping, x)
  }

  ghost predicate IsTable(pd: seq<nat>, x: nat)
    requires |pd| == ENTRIES
  {
    exists i :: 0 <= i < USER_TABLES && Present(pd[i]) && PageOf(pd[i]) == x
  }

  ghost predicate IsFrame(mapping: map<nat, Frame>, x: nat) {
    exists u :: u in mapping && mapping[u].page == x
  }

  /** No frame is mapped twice, and frames, tables and the directory are different pages. */
  ghost predicate PagesApart(pd: seq<nat>, mapping: map<nat, Frame>, address: nat)
    requires |pd| == ENTRIES
  {
    && (forall u, v | u in mapping && v in mapping && u != v :: mapping[u].page != mapping[v].page)
    && (forall x | IsFrame(mapping, x) :: !IsTable(pd, x) && x != address)
    && !IsTable(pd, address)
  }

  /** Then the counts come to one for each page referenced and to none for any other. */
  lemma CountedOnce(pd: seq<nat>, tables: map<nat, seq<nat>>, mapping: map<nat, Frame>, address: nat, x: nat)
    requires MapsTo(pd, tables, mapping) && PagesApart(pd, mapping, address)
    ensures FrameCount(mapping, USER_TABLES * ENTRIES, x) + TableCount(pd, USER_TABLES, x)
            + (if x == address then 1 else 0)
            == if Referenced(pd, mapping, address, x) then 1 else 0
  {
    hide Present, PageOf, Writable, FrameCount, TableCount;
    NotPresentZero();
    TableCountOnce(pd, USER_TABLES, x);
    FrameCountOnce(mapping, USER_TABLES * ENTRIES, x);
    forall u | u in mapping ensures u % PGSIZE == 0 && u / PGSIZE < USER_TABLES * ENTRIES { assert IsUserPage(u); }
  }

  /** No page is mapped to X between two page numbers when no table covers them. */
  lemma {:induction false} NoneBetween(mapping: map<nat, Frame>, m: nat, n: nat, x: nat)
    requires m <= n && forall u | u in mapping && u % PGSIZE == 0 :: !(m <= u / PGSIZE < n)
    ensures FrameCount(mapping, n, x) == FrameCount(mapping, m, x)
  {
    if m < n {
      NoneBetween(mapping, m, n - 1, x);
      var u := (n - 1) * PGSIZE;
      assert u / PGSIZE == n - 1 && u % PGSIZE == 0;
    }
  }

  lemma NotCovered(pd: seq<nat>, tables: map<nat, seq<nat>>, mapping: map<nat, Frame>, i: nat)
    requires MapsTo(pd, tables, mapping) && i < USER_TABLES && !Present(pd[i])
    ensures forall u | u in mapping && u % PGSIZE == 0 :: !(i * ENTRIES <= u / PGSIZE < (i + 1) * ENTRIES)
  {
    hide Present, PageOf, Writable;
    NotPresentZero();
    forall u | u in mapping && u % PGSIZE == 0 ensures !(i * ENTRIES <= u / PGSIZE < (i + 1) * ENTRIES) {
      IndexesDetermine(u);
    }
  }

  lemma PageMapped(pd: seq<nat>, tables: map<nat, seq<nat>>, mapping: map<nat, Frame>, i: nat, j: nat)
    requires MapsTo(pd, tables, mapping) && i < USER_TABLES && pd[i] != 0 && j < ENTRIES
    ensures PageOf(pd[i]) in tables && |tables[PageOf(pd[i])]| == ENTRIES
    ensures var e := tables[PageOf(pd[i])][j];
            && (PageAt(i, j) in mapping <==> Present(e)) && (Present(e) ==> mapping[PageAt(i, j)].page == PageOf(e))
  {
    hide Present, PageOf, Writable;
    PageAtIndexes(i, j);
    assert IsUserPage(PageAt(i, j));
    assert EntryFor(pd, tables, PageAt(i, j)) == tables[PageOf(pd[i])][j];
  }

  class PageDirectory {
    const address: nat                    // of the directory's own page
    var pd: seq<nat>
    var tables: map<nat, seq<nat>>        // the page tables of user entries, by kernel address
    ghost var mapping: map<nat, Frame>

    ghost predicate Valid()
      reads this
    {
      MapsTo(pd, tables, mapping)
    }

    /** pagedir_create: a copy of the kernel's directory, which has no user entries. */
    constructor (address: nat, kernel: seq<nat>)
      requires |kernel| == ENTRIES && forall i | 0 <= i < USER_TABLES :: kernel[i] == 0
      ensures Valid() && mapping == map[] && this.address == address
    {
      this.address := address;
      pd, tables, mapping := kernel, map[], map[];
      NotPresentZero();
    }

    /** There is a page table for U. */
    ghost predicate HasTable(u: nat)
      reads this
    {
      |pd| == ENTRIES && PdNo(u) < ENTRIES && pd[PdNo(u)] != 0
    }

    /** lookup_page: the table that holds the entry for VA, or 0. NEWPAGE is what palloc_get_page
        gives if a table is to be created, 0 if there is none. */
    method LookupPage(va: nat, create: bool, newPage: nat) returns (t: nat)
      requires Valid() && va < PHYS_BASE && (newPage == 0 || (IsKernelPage(newPage) && newPage !in tables))
      modifies this
      ensures Valid() && mapping == old(mapping) && PdNo(va) < USER_TABLES && PtNo(va) < ENTRIES
      ensures t == 0 ==> pd == old(pd) && tables == old(tables) && pd[PdNo(va)] == 0 && (!create || newPage == 0)
      ensures t != 0 ==> pd[PdNo(va)] != 0 && t == PageOf(pd[PdNo(va)]) && t in tables && |tables[t]| == ENTRIES
      ensures !create ==> pd == old(pd) && tables == old(tables)
      ensures t != 0 <==> old(HasTable(va)) || (create && newPage != 0)
    {
      hide Present, PageOf, Writable, PdeCreate, MapsTo;
      IndexesDetermine(va);
      ShapeKnown(pd, tables, mapping, PdNo(va));
      if pd[PdNo(va)] == 0 {
        if !create || newPage == 0 {
          return 0;
        }
        var zeros := seq(ENTRIES, _ => 0);
        TableAdded(pd, tables, mapping, PdNo(va), newPage, zeros);
        pd, tables := pd[PdNo(va) := PdeCreate(newPage)], tables[newPage := zeros];
      }
      t := PageOf(pd[PdNo(va)]);
      ShapeKnown(pd, tables, mapping, PdNo(va));
    }

    /** pagedir_set_page */
    method SetPage(upage: nat, kpage: nat, writable: bool, newPage: nat) returns (ok: bool)
      requires Valid() && IsUserPage(upage) && IsKernelPage(kpage) && upage !in mapping
      requires newPage == 0 || (IsKernelPage(newPage) && newPage !in tables)
      modifies this
      ensures Valid() && mapping == if ok then old(mapping)[upage := Frame(kpage, writable)] else old(mapping)
      ensures ok <==> old(HasTable(upage)) || newPage != 0
    {
      hide Present, PageOf, Writable, PteCreateUser, MapsTo;
      var t := LookupPage(upage, true, newPage);
      ok := t != 0;
      if ok {
        var e := PteCreateUser(kpage, writable);
        EntryRoundTrip(kpage, writable);
        EntryStored(pd, tables, mapping, upage, e);
        tables, mapping := Stored(tables, t, PtNo(upage), e), mapping[upage := FrameOf(e)];
      }
    }

    /** pagedir_get_page; 0 if UADDR is not mapped. */
    method GetPage(uaddr: nat) returns (k: nat)
      requires Valid() && uaddr < PHYS_BASE
      ensures var u := uaddr / PGSIZE * PGSIZE;
              k == if u in mapping then mapping[u].page + uaddr % PGSIZE else 0
    {
      hide Present, Writable;
      IndexesDetermine(uaddr);
      ghost var u := uaddr / PGSIZE * PGSIZE;
      IndexesDetermine(u);
      SamePage(uaddr);
      NotPresentZero();
      var pde := pd[PdNo(uaddr)];
      if pde == 0 {
        return 0;
      }
      var e := tables[PageOf(pde)][PtNo(uaddr)];
      assert e == EntryFor(pd, tables, u);
      if Present(e) {
        return PageOf(e) + uaddr % PGSIZE;
      }
      return 0;
    }

    /** pagedir_clear_page */
    method ClearPage(upage: nat)
      requires Valid() && IsUserPage(upage)
      modifies this
      ensures Valid() && mapping == old(mapping) - {upage}
    {
      hide Present, PageOf, Writable, AndNot;
      var t := LookupPage(upage, false, 0);
      NotPresentZero();
      if t != 0 && Present(tables[t][PtNo(upage)]) {
        var e := tables[t][PtNo(upage)];
        Cleared(e);
        EntryStored(pd, tables, mapping, upage, AndNot(e, PTE_P));
        tables, mapping := Stored(tables, t, PtNo(upage), AndNot(e, PTE_P)), mapping - {upage};
      } else {
        assert mapping == mapping - {upage};
      }
    }

    /** pagedir_is_dirty and pagedir_is_accessed */
    ghost predicate HasFlag(u: nat, flag: nat)
      requires Valid() && IsUserPage(u)
      reads this
    {
      And(EntryFor(pd, tables, u), flag) != 0
    }

    /** pagedir_set_dirty and pagedir_set_accessed on a user page: this flag changes and nothing
        else, no translation in particular. */
    method SetFlag(upage: nat, flag: nat, on: bool)
      requires Valid() && IsUserPage(upage) && (flag == PTE_A || flag == PTE_D)
      modifies this
      ensures Valid() && mapping == old(mapping)
      ensures upage in mapping ==> (HasFlag(upage, flag) <==> on)
      ensures forall v, f | IsUserPage(v) && (f == PTE_A || f == PTE_D) && (v != upage || f != flag) ::
                HasFlag(v, f) <==> old(HasFlag(v, f))
    {
      hide Present, PageOf, Writable, AndNot, Or, And;
      var t := LookupPage(upage, false, 0);
      if t != 0 {
        var e := tables[t][PtNo(upage)];
        var e' := if on then Or(e, flag) else AndNot(e, flag);
        assert e == EntryFor(pd, tables, upage);
        FlagChanged(e, flag, e');
        FlagSetTo(e, flag, on);
        EntryStored(pd, tables, mapping, upage, e');
        assert mapping == if Present(e') then mapping[upage := FrameOf(e')] else mapping - {upage};
        tables := Stored(tables, t, PtNo(upage), e');
      } else {
        NotPresentZero();
        assert EntryFor(pd, tables, upage) == 0;
      }
    }

    /** pagedir_destroy: FREED lists the arguments of palloc_free_page. */
    method Destroy() returns (freed: seq<nat>)
      requires Valid()
      ensures forall x :: multiset(freed)[x] ==
                FrameCount(mapping, USER_TABLES * ENTRIES, x) + TableCount(pd, USER_TABLES, x)
                + if x == address then 1 else 0
      ensures |pd| == ENTRIES
      ensures PagesApart(pd, mapping, address) ==>
                forall x :: multiset(freed)[x] == if Referenced(pd, mapping, address, x) then 1 else 0
    {
      hide Present, PageOf, Writable, MapsTo;
      freed := [];
      ShapeKnown(pd, tables, mapping, 0);
      for i := 0 to USER_TABLES
        invariant |pd| == ENTRIES
        invariant forall x :: multiset(freed)[x] == FrameCount(mapping, i * ENTRIES, x) + TableCount(pd, i, x)
      {
        ShapeKnown(pd, tables, mapping, i);
        NotPresentZero();
        if Present(pd[i]) {
          freed := FreeTable(i, freed);
        } else {
          NotCovered(pd, tables, mapping, i);
          forall x: nat
            ensures FrameCount(mapping, (i + 1) * ENTRIES, x) == FrameCount(mapping, i * ENTRIES, x)
          {
            NoneBetween(mapping, i * ENTRIES, (i + 1) * ENTRIES, x);
          }
        }
      }
      freed := freed + [address];
      if PagesApart(pd, mapping, address) {
        forall x: nat ensures multiset(freed)[x] == if Referenced(pd, mapping, address, x) then 1 else 0 {
          CountedOnce(pd, tables, mapping, address, x);
        }
      }
    }

    /** The frames of one table, then the table. */
    method FreeTable(i: nat, before: seq<nat>) returns (freed: seq<nat>)
      requires Valid() && i < USER_TABLES && |pd| == ENTRIES && Present(pd[i]) && pd[i] != 0
      requires forall x :: multiset(before)[x] == FrameCount(mapping, i * ENTRIES, x) + TableCount(pd, i, x)
      ensures forall x :: multiset(freed)[x] == FrameCount(mapping, (i + 1) * ENTRIES, x) + TableCount(pd, i + 1, x)
    {
      hide Present, PageOf, Writable, MapsTo;
      freed := before;
      ShapeKnown(pd, tables, mapping, i);
      var pt := PageOf(pd[i]);
      for j := 0 to ENTRIES
        invariant forall x :: multiset(freed)[x] == FrameCount(mapping, i * ENTRIES + j, x) + TableCount(pd, i, x)
      {
        PageMapped(pd, tables, mapping, i, j);
        var e := tables[pt][j];
        assert PageAt(i, j) == (i * ENTRIES + j) * PGSIZE;
        if Present(e) {
          freed := freed + [PageOf(e)];
        }
      }
      freed := freed + [pt];
    }
  }

  lemma ShapeKnown(pd: seq<nat>, tables: map<nat, seq<nat>>, mapping: map<nat, Frame>, i: nat)
    requires MapsTo(pd, tables, mapping) && i < USER_TABLES
    ensures |pd| == ENTRIES && (pd[i] != 0 ==>
                Present(pd[i]) && PageOf(pd[i]) in tables && PageOf(pd[i]) != 0 && |tables[PageOf(pd[i])]| == ENTRIES)
  {
  }

  lemma SamePage(a: nat)
    ensures PdNo(a / PGSIZE * PGSIZE) == PdNo(a) && PtNo(a / PGSIZE * PGSIZE) == PtNo(a)
  {
    var b := a / PGSIZE * PGSIZE;
    assert b / PGSIZE == a / PGSIZE;
    PdNoOf(a);
    PdNoOf(b);
  }

  lemma PdNoOf(a: nat)
    ensures PdNo(a) == a / PGSIZE / ENTRIES
  {
  }
}
