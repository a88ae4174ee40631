/** threads/malloc.c: size-class arenas carved out of pages.
    A block is named by its arena and its number there; Start gives its address.
    A free list is the sequence of the blocks that the intrusive list links together. */
module Malloc {
  import opened Bitmap
  import opened Common
  import opened Palloc

  const HEADER: nat := 12          // sizeof (struct arena)
  const DESC_CNT: nat := 7

  /** What malloc_init fills the descriptor table with. */
  const BLOCK_SIZES: seq<nat> := [16, 32, 64, 128, 256, 512, 1024]

  function BlockSize(d: nat): (r: nat)
    requires d < DESC_CNT
    ensures r >= 16
  {
    BLOCK_SIZES[d]
  }

  /** blocks_per_arena */
  function PerArena(d: nat): (r: nat)
    requires d < DESC_CNT
    ensures r >= 3 && HEADER + r * BlockSize(d) <= PGSIZE < HEADER + (r + 1) * BlockSize(d)
  {
    (PGSIZE - HEADER) / BlockSize(d)
  }

  /** struct arena: a page of equal blocks, or a big block of several pages. */
  datatype Arena = Small(d: nat, freeCnt: nat) | Big(pages: nat)

  datatype Block = Block(arena: nat, idx: nat)

  /** B is a block of its arena. */
  predicate InArena(b: Block, arena: Arena) {
    match arena
    case Small(d, _) => d < DESC_CNT && b.idx < PerArena(d)
    case Big(_) => b.idx == 0
  }

  /** arena_to_block; a big block starts right after the header. */
  function Start(b: Block, arena: Arena): (r: nat)
    requires InArena(b, arena)
    ensures r >= b.arena + HEADER
  {
    b.arena + HEADER + match arena case Small(d, _) => b.idx * BlockSize(d) case Big(_) => 0
  }

  /** pg_round_down */
  function Page(p: nat): nat { p / PGSIZE * PGSIZE }

  /** The alignment that block_to_arena asserts. */
  predicate Aligned(p: nat, arena: Arena) {
    match arena
    case Small(d, _) => d < DESC_CNT && p % PGSIZE >= HEADER && (p % PGSIZE - HEADER) % BlockSize(d) == 0
    case Big(_) => p % PGSIZE == HEADER
  }

  /** The block at address P. */
  function At(p: nat, arena: Arena): Block
    requires Aligned(p, arena)
  {
    Block(Page(p), match arena case Small(d, _) => (p % PGSIZE - HEADER) / BlockSize(d) case Big(_) => 0)
  }

  /** The first address past the pages of an arena. */
  function ArenaEnd(a: nat, arena: Arena): nat { a + PGSIZE * Pages(arena) }

  function Pages(arena: Arena): nat { match arena case Small(_, _) => 1 case Big(pages) => pages }

  /** block_size: the bytes a block has room for. */
  function Room(arena: Arena): int {
    match arena case Small(d, _) => if d < DESC_CNT then BlockSize(d) else 0 case Big(pages) => PGSIZE * pages - HEADER
  }

  /** From a block to its address and back; the block ends inside the arena. */
  lemma StartOf(b: Block, arena: Arena)
    requires b.arena % PGSIZE == 0 && InArena(b, arena)
    ensures var p := Start(b, arena); Page(p) == b.arena && Aligned(p, arena) && At(p, arena) == b
    ensures arena.Small? ==> Start(b, arena) + BlockSize(arena.d) <= ArenaEnd(b.arena, arena)
  {
    match arena
    case Small(d, _) =>
      Slot(b.idx, BlockSize(d), PerArena(d));
      InPage(b.arena, HEADER + b.idx * BlockSize(d));
    case Big(_) => InPage(b.arena, HEADER);
  }

  lemma Slot(i: nat, s: nat, n: nat)
    requires i < n && s in BLOCK_SIZES
    ensures 0 <= i * s && i * s + s <= n * s && i * s / s == i && i * s % s == 0
  {
    assert i * s + s <= n * s by { assert (n - i - 1) * s >= 0; }
    Multiple(i, s);
  }

  lemma Multiple(i: nat, s: nat)
    requires s in BLOCK_SIZES
    ensures i * s / s == i && i * s % s == 0
  {
    if s == 16 {} else if s == 32 {} else if s == 64 {} else if s == 128 {} else if s == 256 {} else if s == 512 {}
    else {}
  }

  lemma InPage(a: nat, ofs: nat)
    requires a % PGSIZE == 0 && ofs < PGSIZE
    ensures (a + ofs) % PGSIZE == ofs && Page(a + ofs) == a
  {
  }

  // ---- what holds between calls ----

  /** Descriptor D is the one with the smallest blocks of SIZE bytes or more. */
  predicate IsBest(d: nat, size: nat) {
    d < DESC_CNT && size <= BlockSize(d) && (d > 0 ==> BlockSize(d - 1) < size)
  }

  /** The block is of the best descriptor, or of no more pages than needed if there is none. */
  predicate BestFit(arenas: map<nat, Arena>, b: Block, size: nat) {
    && b.arena in arenas
    && match arenas[b.arena]
       case Small(d, _) => IsBest(d, size)
       case Big(pages) => BlockSize(DESC_CNT - 1) < size && (pages - 1) * PGSIZE < size + HEADER <= pages * PGSIZE
  }

  /** The best descriptor has no free block. */
  predicate NoneLeft(free: seq<seq<Block>>, size: nat) {
    forall d | 0 <= d < |free| && IsBest(d, size) :: free[d] == []
  }

  /** B may be on the free list of descriptor D. */
  predicate FreeOk(arenas: map<nat, Arena>, live: map<Block, nat>, d: nat, b: Block)
    requires d < DESC_CNT
  {
    b.arena in arenas && arenas[b.arena].Small? && arenas[b.arena].d == d && b.idx < PerArena(d) && b !in live
  }

  /** B, handed out for a request of SIZE bytes, lies in a held arena with room for it. */
  predicate LiveOk(arenas: map<nat, Arena>, b: Block, size: nat) {
    && 0 < size && b.arena in arenas && InArena(b, arenas[b.arena])
    && match arenas[b.arena]
       case Small(d, _) => size <= BlockSize(d)
       case Big(pages) => HEADER + size <= pages * PGSIZE
  }

  /** How many of the first N blocks of arena A are on LIST. */
  function FreeCount(list: seq<Block>, a: nat, n: nat): nat
  {
    if n == 0 then 0 else FreeCount(list, a, n - 1) + if Block(a, n - 1) in list then 1 else 0
  }

  /** A held arena's free count is the number of its blocks on the free list, the others are
      handed out, and unless it is the exception at least one is. */
  ghost predicate ArenaOk(free: seq<seq<Block>>, live: map<Block, nat>, a: nat, arena: Arena, exception: nat)
    requires |free| == DESC_CNT
  {
    && a % PGSIZE == 0 && 0 < a
    && match arena
       case Small(d, cnt) =>
         && d < DESC_CNT && cnt == FreeCount(free[d], a, PerArena(d)) && (cnt < PerArena(d) || a == exception)
         && forall i: nat | i < PerArena(d) :: Block(a, i) in free[d] || Block(a, i) in live
       case Big(pages) => pages > 0 && Block(a, 0) in live
  }

  ghost predicate HeapOk(free: seq<seq<Block>>, arenas: map<nat, Arena>, live: map<Block, nat>, exception: nat) {
    && |free| == DESC_CNT
    && (forall d | 0 <= d < DESC_CNT :: Distinct(free[d]))
    && (forall d, b | 0 <= d < DESC_CNT && b in free[d] :: FreeOk(arenas, live, d, b))
    && (forall b | b in live :: LiveOk(arenas, b, live[b]))
    && (forall a | a in arenas :: ArenaOk(free, live, a, arenas[a], exception))
  }

  ghost predicate ArenasDisjoint(arenas: map<nat, Arena>) {
    forall a, b | a in arenas && b in arenas && a < b :: ArenaEnd(a, arenas[a]) <= b
  }

  /** Outstanding blocks never overlap. */
  lemma LiveDisjoint(free: seq<seq<Block>>, arenas: map<nat, Arena>, live: map<Block, nat>, b: Block, c: Block)
    requires HeapOk(free, arenas, live, 0) && b in live && c in live && b != c
    requires ArenasDisjoint(arenas)
    ensures LiveOk(arenas, b, live[b]) && LiveOk(arenas, c, live[c])
    ensures live[b] <= Room(arenas[b.arena]) && live[c] <= Room(arenas[c.arena])
    ensures var p, q := Start(b, arenas[b.arena]), Start(c, arenas[c.arena]);
            p + Room(arenas[b.arena]) <= q || q + Room(arenas[c.arena]) <= p
  {
    assert LiveOk(arenas, b, live[b]) && LiveOk(arenas, c, live[c]);
    assert ArenaOk(free, live, b.arena, arenas[b.arena], 0) && ArenaOk(free, live, c.arena, arenas[c.arena], 0);
    StartOf(b, arenas[b.arena]);
    StartOf(c, arenas[c.arena]);
    if b.arena == c.arena {
      BlocksApart(b.idx, c.idx, BlockSize(arenas[b.arena].d));
    }
  }

  lemma BlocksApart(i: nat, j: nat, s: nat)
    requires i != j && s in BLOCK_SIZES
    ensures i * s + s <= j * s || j * s + s <= i * s
  {
    if s == 16 {} else if s == 32 {} else if s == 64 {} else if s == 128 {} else if s == 256 {} else if s == 512 {}
    else {}
  }

  /** When nothing is outstanding no arena is held: freeing everything gives every page back. */
  lemma NothingLiveNothingHeld(free: seq<seq<Block>>, arenas: map<nat, Arena>, live: map<Block, nat>)
    requires HeapOk(free, arenas, live, 0) && live == map[]
    ensures arenas == map[] && forall d | 0 <= d < DESC_CNT :: free[d] == []
  {
    forall a | a in arenas ensures false {
      assert ArenaOk(free, live, a, arenas[a], 0);
      AllFree(free[arenas[a].d], a, PerArena(arenas[a].d));
    }
    forall d | 0 <= d < DESC_CNT ensures free[d] == [] {
      FirstIsMember(free[d]);
    }
  }

  lemma FirstIsMember(s: seq<Block>)
    ensures s != [] ==> s[0] in s
  {
  }

  lemma {:induction false} AllFree(list: seq<Block>, a: nat, n: nat)
    requires forall i: nat | i < n :: Block(a, i) in list
    ensures FreeCount(list, a, n) == n
  {
    if n > 0 { AllFree(list, a, n - 1); }
  }

  lemma {:induction false} CountsAgree(list: seq<Block>, list': seq<Block>, a: nat, n: nat)
    requires forall i: nat | i < n :: Block(a, i) in list <==> Block(a, i) in list'
    ensures FreeCount(list, a, n) == FreeCount(list', a, n)
  {
    if n > 0 { CountsAgree(list, list', a, n - 1); }
  }

  lemma {:induction false} InList(list: seq<Block>, a: nat, i: nat, n: nat)
    requires Block(a, i) in list && i < n
    ensures FreeCount(list, a, n) > 0
  {
    if i < n - 1 { InList(list, a, i, n - 1); }
  }

  /** LIST' has block J of arena A in addition. */
  lemma {:induction false} CountsOneMore(list: seq<Block>, list': seq<Block>, a: nat, n: nat, j: nat)
    requires j < n && Block(a, j) !in list && Block(a, j) in list'
    requires forall i: nat | i < n && i != j :: Block(a, i) in list <==> Block(a, i) in list'
    ensures FreeCount(list', a, n) == FreeCount(list, a, n) + 1
  {
    if j == n - 1 { CountsAgree(list, list', a, n - 1); } else { CountsOneMore(list, list', a, n - 1, j); }
  }

  lemma {:induction false} CountAtMost(list: seq<Block>, a: nat, n: nat)
    ensures FreeCount(list, a, n) <= n
    ensures FreeCount(list, a, n) == n ==> forall i: nat | i < n :: Block(a, i) in list
  {
    if n > 0 { CountAtMost(list, a, n - 1); }
  }

  // ---- steps ----

  /** Nothing outside arena A moved. */
  ghost predicate OnlyArena(free: seq<seq<Block>>, free': seq<seq<Block>>, arenas: map<nat, Arena>,
                            arenas': map<nat, Arena>, live: map<Block, nat>, live': map<Block, nat>, a: nat) {
    && |free| == |free'| == DESC_CNT
    && (forall b: Block, d | 0 <= d < DESC_CNT && b.arena != a :: b in free[d] <==> b in free'[d])
    && (forall b: Block | b.arena != a :: b in live <==> b in live')
    && (forall b | b in live && b in live' && b.arena != a :: live[b] == live'[b])
    && (forall c | c != a :: c in arenas <==> c in arenas')
    && (forall c | c in arenas && c in arenas' && c != a :: arenas[c] == arenas'[c])
  }

  /** The part of the invariant that is about arena A. */
  ghost predicate ArenaSettled(free: seq<seq<Block>>, arenas: map<nat, Arena>, live: map<Block, nat>, a: nat,
                               exception: nat)
    requires |free| == DESC_CNT
  {
    && (forall d | 0 <= d < DESC_CNT :: Distinct(free[d]))
    && (forall d, b | 0 <= d < DESC_CNT && b in free[d] && b.arena == a :: FreeOk(arenas, live, d, b))
    && (forall b | b in live && b.arena == a :: LiveOk(arenas, b, live[b]))
    && (a in arenas ==> ArenaOk(free, live, a, arenas[a], exception))
  }

  lemma Settled(free: seq<seq<Block>>, arenas: map<nat, Arena>, live: map<Block, nat>, a: nat, exception: nat)
    requires HeapOk(free, arenas, live, exception)
    ensures |free| == DESC_CNT && ArenaSettled(free, arenas, live, a, exception)
  {
  }

  /** A step that touches one arena keeps the invariant if it leaves that arena in order. */
  lemma OneArenaStep(free: seq<seq<Block>>, free': seq<seq<Block>>, arenas: map<nat, Arena>, arenas': map<nat, Arena>,
                     live: map<Block, nat>, live': map<Block, nat>,
                     a: nat, exception: nat, exception': nat)
    requires HeapOk(free, arenas, live, exception) && (exception == 0 || exception == a)
    requires OnlyArena(free, free', arenas, arenas', live, live', a)
    requires ArenaSettled(free', arenas', live', a, exception')
    ensures HeapOk(free', arenas', live', exception')
  {
    forall e, c | 0 <= e < DESC_CNT && c in free'[e] ensures FreeOk(arenas', live', e, c) {
      if c.arena != a { assert c in free[e] && FreeOk(arenas, live, e, c); }
    }
    forall c | c in live' ensures LiveOk(arenas', c, live'[c]) {
      if c.arena != a { assert LiveOk(arenas, c, live[c]); }
    }
    forall c | c in arenas' ensures ArenaOk(free', live', c, arenas'[c], exception') {
      if c != a {
        assert ArenaOk(free, live, c, arenas[c], exception);
        OtherArenaKept(free, free', live, live', c, arenas[c], exception, exception');
      }
    }
  }

  /** An arena none of whose blocks moved stays as it should be. */
  lemma OtherArenaKept(free: seq<seq<Block>>, free': seq<seq<Block>>, live: map<Block, nat>, live': map<Block, nat>,
                       c: nat, arena: Arena, exception: nat, exception': nat)
    requires |free| == |free'| == DESC_CNT && ArenaOk(free, live, c, arena, exception) && c != exception
    requires forall b: Block, d | 0 <= d < DESC_CNT && b.arena == c :: b in free[d] <==> b in free'[d]
    requires forall b: Block | b.arena == c :: b in live <==> b in live'
    ensures ArenaOk(free', live', c, arena, exception')
  {
    match arena
    case Small(d, cnt) => CountsAgree(free[d], free'[d], c, PerArena(d));
    case Big(_) => assert Block(c, 0).arena == c;
  }

  /** A new arena's blocks go on the empty free list of its descriptor. */
  lemma ArenaAdded(free: seq<seq<Block>>, arenas: map<nat, Arena>, live: map<Block, nat>, a: nat, d: nat,
                   blocks: seq<Block>)
    requires HeapOk(free, arenas, live, 0) && d < DESC_CNT && free[d] == [] && a !in arenas && a % PGSIZE == 0 && 0 < a
    requires |blocks| == PerArena(d) && forall i | 0 <= i < |blocks| :: blocks[i] == Block(a, i)
    ensures HeapOk(free[d := blocks], arenas[a := Small(d, PerArena(d))], live, a)
  {
    AllFree(blocks, a, PerArena(d));
    OneArenaStep(free, free[d := blocks], arenas, arenas[a := Small(d, PerArena(d))], live, live, a, 0, a);
  }

  lemma FrontOff(b: Block, rest: seq<Block>)
    requires Distinct([b] + rest)
    ensures b !in rest && Distinct(rest)
  {
    var s := [b] + rest;
    assert s[0] == b && forall i | 0 <= i < |rest| :: rest[i] == s[i + 1];
  }

  /** Popping the front of a free list hands its block out. */
  lemma FrontTaken(free: seq<seq<Block>>, arenas: map<nat, Arena>, live: map<Block, nat>, d: nat, b: Block,
                   rest: seq<Block>, size: nat, exception: nat)
    requires HeapOk(free, arenas, live, exception) && d < DESC_CNT && free[d] == [b] + rest && 0 < size <= BlockSize(d)
    requires exception == 0 || exception == b.arena
    ensures var a := b.arena;
            && FreeOk(arenas, live, d, b) && arenas[a].freeCnt > 0
            && HeapOk(free[d := rest], arenas[a := Small(d, arenas[a].freeCnt - 1)], live[b := size], 0)
  {
    hide HeapOk, OnlyArena, ArenaSettled;
    var a := b.arena;
    Settled(free, arenas, live, a, exception);
    TakeSettled(free, arenas, live, d, b, rest, size, exception);
    TakeOnly(free, arenas, live, d, b, rest, arenas[a := Small(d, arenas[a].freeCnt - 1)], live[b := size]);
    OneArenaStep(free, free[d := rest], arenas, arenas[a := Small(d, arenas[a].freeCnt - 1)], live, live[b := size],
                 a, exception, 0);
  }

  /** What that leaves of the block's own arena. */
  lemma TakeSettled(free: seq<seq<Block>>, arenas: map<nat, Arena>, live: map<Block, nat>, d: nat, b: Block,
                    rest: seq<Block>, size: nat, exception: nat)
    requires |free| == DESC_CNT && d < DESC_CNT && free[d] == [b] + rest && 0 < size <= BlockSize(d)
    requires ArenaSettled(free, arenas, live, b.arena, exception)
    ensures var a := b.arena;
            && FreeOk(arenas, live, d, b) && arenas[a].freeCnt > 0
            && ArenaSettled(free[d := rest], arenas[a := Small(d, arenas[a].freeCnt - 1)], live[b := size], a, 0)
  {
    hide FreeCount, PerArena, BlockSize;
    assert b in free[d] && FreeOk(arenas, live, d, b);
    FrontOff(b, rest);
    forall c: Block ensures c in free[d] <==> c == b || c in rest {}
    CountsOneMore(rest, free[d], b.arena, PerArena(d), b.idx);
    CountAtMost(free[d], b.arena, PerArena(d));
  }

  /** The block at the front of a list is all that moves, whichever way. */
  lemma TakeOnly(free: seq<seq<Block>>, arenas: map<nat, Arena>, live: map<Block, nat>, d: nat, b: Block,
                 rest: seq<Block>, arenas': map<nat, Arena>, live': map<Block, nat>)
    requires |free| == DESC_CNT && d < DESC_CNT && free[d] == [b] + rest
    requires forall c | c != b :: c in live <==> c in live'
    requires forall c | c in live && c in live' && c != b :: live[c] == live'[c]
    requires forall c | c != b.arena :: c in arenas <==> c in arenas'
    requires forall c | c in arenas && c in arenas' && c != b.arena :: arenas[c] == arenas'[c]
    ensures OnlyArena(free, free[d := rest], arenas, arenas', live, live', b.arena)
    ensures OnlyArena(free[d := rest], free, arenas', arenas, live', live, b.arena)
  {
  }

  /** Pushing a block handed out back on the front of its free list. */
  lemma BlockReturned(free: seq<seq<Block>>, arenas: map<nat, Arena>, live: map<Block, nat>, b: Block)
    requires HeapOk(free, arenas, live, 0) && b in live && arenas[b.arena].Small?
    ensures var a := b.arena; var d := arenas[a].d;
            && d < DESC_CNT && b !in free[d]
            && HeapOk(free[d := [b] + free[d]], arenas[a := Small(d, arenas[a].freeCnt + 1)], live - {b}, a)
            && arenas[a].freeCnt + 1 <= PerArena(d)
  {
    hide FreeOk, OnlyArena, ArenaSettled;
    var a := b.arena;
    var d := arenas[a].d;
    Settled(free, arenas, live, a, 0);
    ReturnSettled(free, arenas, live, b);
    var free', arenas' := free[d := [b] + free[d]], arenas[a := Small(d, arenas[a].freeCnt + 1)];
    TakeOnly(free', arenas', live - {b}, d, b, free[d], arenas, live);
    assert free'[d := free[d]] == free;
    OneArenaStep(free, free', arenas, arenas', live, live - {b}, a, 0, a);
  }

  lemma ReturnSettled(free: seq<seq<Block>>, arenas: map<nat, Arena>, live: map<Block, nat>, b: Block)
    requires |free| == DESC_CNT && ArenaSettled(free, arenas, live, b.arena, 0)
    requires b in live && b.arena in arenas && arenas[b.arena].Small?
    ensures var a := b.arena; var d := arenas[a].d;
            && d < DESC_CNT && b !in free[d] && arenas[a].freeCnt + 1 <= PerArena(d)
            && ArenaSettled(free[d := [b] + free[d]], arenas[a := Small(d, arenas[a].freeCnt + 1)], live - {b}, a, a)
  {
    var a := b.arena;
    var d := arenas[a].d;
    assert LiveOk(arenas, b, live[b]);
    assert b in free[d] ==> FreeOk(arenas, live, d, b);
    CountsOneMore(free[d], [b] + free[d], a, PerArena(d), b.idx);
    CountAtMost([b] + free[d], a, PerArena(d));
  }

  /** Dropping all blocks of an arena that has none handed out, and the arena with them. */
  lemma ArenaReleased(free: seq<seq<Block>>, arenas: map<nat, Arena>, live: map<Block, nat>, a: nat, rest: seq<Block>)
    requires HeapOk(free, arenas, live, a) && a in arenas && arenas[a].Small?
             && arenas[a].freeCnt == PerArena(arenas[a].d)
    requires Distinct(rest) && forall c :: c in rest <==>
                 c in free[arenas[a].d] && !(c.arena == a && c.idx < PerArena(arenas[a].d))
    ensures HeapOk(free[arenas[a].d := rest], arenas - {a}, live, 0)
  {
    var d := arenas[a].d;
    assert ArenaOk(free, live, a, arenas[a], a);
    CountAtMost(free[d], a, PerArena(d));
    forall b: Block ensures b.arena == a ==> b !in live { assert b == Block(b.arena, b.idx); }
    OneArenaStep(free, free[d := rest], arenas, arenas - {a}, live, live, a, a, 0);
  }

  lemma BigAdded(free: seq<seq<Block>>, arenas: map<nat, Arena>, live: map<Block, nat>, a: nat, pages: nat, size: nat)
    requires HeapOk(free, arenas, live, 0) && a !in arenas && a % PGSIZE == 0 && 0 < a && 0 < size && 0 < pages
             && HEADER + size <= pages * PGSIZE
    ensures Block(a, 0) !in live && HeapOk(free, arenas[a := Big(pages)], live[Block(a, 0) := size], 0)
  {
    OneArenaStep(free, free, arenas, arenas[a := Big(pages)], live, live[Block(a, 0) := size], a, 0, 0);
  }

  lemma BigReleased(free: seq<seq<Block>>, arenas: map<nat, Arena>, live: map<Block, nat>, b: Block)
    requires HeapOk(free, arenas, live, 0) && b in live && arenas[b.arena].Big?
    ensures HeapOk(free, arenas - {b.arena}, live - {b}, 0)
  {
    OneArenaStep(free, free, arenas, arenas - {b.arena}, live, live - {b}, b.arena, 0, 0);
  }

  // ---- the page pool underneath ----

  /** Every arena is a run of pages that the pool has handed out. */
  ghost predicate Held(base: nat, runs: Runs, arenas: map<nat, Arena>) {
    && base % PGSIZE == 0
    && forall a | a in arenas :: base <= a && a % PGSIZE == 0 && (a - base) / PGSIZE in runs
          && runs[(a - base) / PGSIZE] == Pages(arenas[a])
  }

  /** The pool's runs that are not arenas. */
  ghost function OtherRuns(base: nat, runs: Runs, arenas: map<nat, Arena>): Runs {
    map k | k in runs && base + k * PGSIZE !in arenas :: runs[k]
  }

  lemma HeldDisjoint(used: seq<bool>, base: nat, runs: Runs, arenas: map<nat, Arena>)
    requires RunsOk(used, runs) && Held(base, runs, arenas)
    ensures ArenasDisjoint(arenas)
  {
    forall i, j | i in runs && j in runs && i < j ensures i + runs[i] <= j { RunsApart(used, runs, i, j); }
    RunsApartArenas(base, runs, arenas);
  }

  lemma RunsApartArenas(base: nat, runs: Runs, arenas: map<nat, Arena>)
    requires Held(base, runs, arenas) && forall i, j | i in runs && j in runs && i < j :: i + runs[i] <= j
    ensures ArenasDisjoint(arenas)
  {
    forall a, b | a in arenas && b in arenas && a < b ensures ArenaEnd(a, arenas[a]) <= b {
      var i, j := (a - base) / PGSIZE, (b - base) / PGSIZE;
      PageNumbers(base, a);
      PageNumbers(base, b);
      assert i in runs && j in runs && i < j;
    }
  }

  lemma RunsApart(used: seq<bool>, runs: Runs, i: nat, j: nat)
    requires RunsOk(used, runs) && i in runs && j in runs && i < j
    ensures i + runs[i] <= j
  {
    assert Within(runs, j, j);
    assert !Within(runs, i, j);
  }

  lemma RunTaken(base: nat, runs: Runs, arenas: map<nat, Arena>, k: nat, arena: Arena)
    requires Held(base, runs, arenas) && k !in runs
    ensures var a := base + k * PGSIZE;
            && a !in arenas
            && Held(base, runs[k := Pages(arena)], arenas[a := arena])
            && OtherRuns(base, runs[k := Pages(arena)], arenas[a := arena]) == OtherRuns(base, runs, arenas)
  {
  }

  lemma RunReturned(base: nat, runs: Runs, arenas: map<nat, Arena>, a: nat)
    requires Held(base, runs, arenas) && a in arenas
    ensures var k := (a - base) / PGSIZE;
            && Held(base, runs - {k}, arenas - {a})
            && OtherRuns(base, runs - {k}, arenas - {a}) == OtherRuns(base, runs, arenas)
  {
    var k := (a - base) / PGSIZE;
    assert base + k * PGSIZE == a;
    forall c | c in arenas && c != a ensures (c - base) / PGSIZE != k {}
  }

  lemma PageNumbers(base: nat, a: nat)
    requires base % PGSIZE == 0 && a % PGSIZE == 0 && base <= a
    ensures a / PGSIZE - base / PGSIZE == (a - base) / PGSIZE && a == base + (a - base) / PGSIZE * PGSIZE
  {
  }

  /** A change of free counts alone matters to nobody else. */
  lemma HeaderRewritten(base: nat, runs: Runs, arenas: map<nat, Arena>, a: nat, cnt: nat)
    requires Held(base, runs, arenas) && a in arenas && arenas[a].Small?
    ensures var arenas' := arenas[a := Small(arenas[a].d, cnt)];
            Held(base, runs, arenas') && OtherRuns(base, runs, arenas') == OtherRuns(base, runs, arenas)
  {
  }

  /** Arenas stay where they are and keep their descriptors. */
  ghost predicate SameArenas(arenas: map<nat, Arena>, arenas': map<nat, Arena>) {
    forall a | a in arenas :: a in arenas' && arenas[a].Small? == arenas'[a].Small?
          && (if arenas[a].Small? then arenas[a].d == arenas'[a].d else arenas[a] == arenas'[a])
  }

  lemma FrontIsFree(free: seq<seq<Block>>, arenas: map<nat, Arena>, live: map<Block, nat>, d: nat, exception: nat)
    requires HeapOk(free, arenas, live, exception) && d < DESC_CNT && free[d] != []
    ensures FreeOk(arenas, live, d, free[d][0]) && arenas[free[d][0].arena].freeCnt > 0
  {
    var b := free[d][0];
    assert b in free[d] && FreeOk(arenas, live, d, b);
    InList(free[d], b.arena, b.idx, PerArena(d));
  }

  lemma Popped(base: nat, runs: Runs, free: seq<seq<Block>>, arenas: map<nat, Arena>, live: map<Block, nat>, d: nat,
               b: Block, size: nat, exception: nat,
               free': seq<seq<Block>>, arenas': map<nat, Arena>, live': map<Block, nat>)
    requires HeapOk(free, arenas, live, exception) && Held(base, runs, arenas) && d < DESC_CNT && free[d] != []
             && b == free[d][0]
    requires 0 < size <= BlockSize(d) && (exception == 0 || exception == b.arena)
    requires FreeOk(arenas, live, d, b) && arenas[b.arena].freeCnt > 0
    requires free' == free[d := free[d][1..]] && arenas' == arenas[b.arena := Small(d, arenas[b.arena].freeCnt - 1)]
             && live' == live[b := size]
    ensures HeapOk(free', arenas', live', 0) && SameArenas(arenas, arenas') && LiveOk(arenas', b, size)
    ensures Held(base, runs, arenas') && OtherRuns(base, runs, arenas') == OtherRuns(base, runs, arenas)
  {
    hide Held, OtherRuns, ArenaOk, Distinct;
    assert free[d] == [b] + free[d][1..];
    FrontTaken(free, arenas, live, d, b, free[d][1..], size, exception);
    HeaderRewritten(base, runs, arenas, b.arena, arenas[b.arena].freeCnt - 1);
  }

  // ---- the allocator ----

  /** malloc_init's loop: descriptors for the powers of two from 16 up to below half a page. */
  method DescriptorSizes() returns (sizes: seq<nat>)
    ensures sizes == BLOCK_SIZES
  {
    sizes := [];
    var size := 16;
    while size < PGSIZE / 2
      invariant |sizes| <= DESC_CNT && sizes == BLOCK_SIZES[..|sizes|]
      invariant size == if |sizes| < DESC_CNT then BLOCK_SIZES[|sizes|] else PGSIZE / 2
      decreases PGSIZE - size
    {
      sizes := sizes + [size];
      size := size * 2;
    }
  }

  /** malloc's search; DESC_CNT when no descriptor is large enough. */
  method SmallestFit(size: nat) returns (d: nat)
    ensures d <= DESC_CNT && (forall e | 0 <= e < d :: BlockSize(e) < size) && (d < DESC_CNT ==> size <= BlockSize(d))
  {
    d := 0;
    while d < DESC_CNT && BlockSize(d) < size
      invariant d <= DESC_CNT && forall e | 0 <= e < d :: BlockSize(e) < size
    {
      d := d + 1;
    }
  }

  /** There is at most one best descriptor. */
  lemma OneBest(d: nat, size: nat)
    requires d <= DESC_CNT && (forall e | 0 <= e < d :: BlockSize(e) < size) && (d < DESC_CNT ==> size <= BlockSize(d))
    ensures forall e: nat :: IsBest(e, size) <==> e == d < DESC_CNT
  {
    forall e: nat | IsBest(e, size) ensures e == d {
      if d < e {
        Increasing(d, e - 1);
      }
    }
  }

  lemma Increasing(d: nat, e: nat)
    requires d <= e < DESC_CNT
    ensures BlockSize(d) <= BlockSize(e)
  {
  }

  lemma StillBest(arenas: map<nat, Arena>, arenas': map<nat, Arena>, b: Block, size: nat)
    requires BestFit(arenas, b, size) && SameArenas(arenas', arenas) && LiveOk(arenas', b, size)
    ensures BestFit(arenas', b, size)
  {
  }

  /** list_remove, seen on the sequence. */
  function Removed(s: seq<Block>, b: Block): seq<Block> {
    if s == [] then [] else if s[0] == b then s[1..] else [s[0]] + Removed(s[1..], b)
  }

  lemma {:induction false} RemovedOnce(s: seq<Block>, b: Block)
    requires Distinct(s)
    ensures Distinct(Removed(s, b)) && forall c :: c in Removed(s, b) <==> c in s && c != b
  {
    if s != [] {
      assert s == [s[0]] + s[1..];
      FrontOff(s[0], s[1..]);
      if s[0] != b { RemovedOnce(s[1..], b); }
    }
  }

  /** The N bytes of memory at address P. */
  function Slice(memory: nat -> int, p: nat, n: nat): (r: seq<int>)
    ensures |r| == n
  {
    seq(n, i requires 0 <= i < n => memory(p + i))
  }

  /** All the bytes there is room for in block B. */
  ghost function BlockBytes(memory: nat -> int, arenas: map<nat, Arena>, b: Block): seq<int> {
    if b.arena in arenas && InArena(b, arenas[b.arena]) && Room(arenas[b.arena]) >= 0 then
      Slice(memory, Start(b, arenas[b.arena]), Room(arenas[b.arena]))
    else []
  }

  lemma SliceKept(memory: nat -> int, memory': nat -> int, p: nat, n: nat)
    requires forall a: nat | p <= a < p + n :: memory'(a) == memory(a)
    ensures Slice(memory', p, n) == Slice(memory, p, n)
  {
  }

  lemma AllFilled(memory: nat -> int, p: nat, value: int, n: nat)
    requires Slice(memory, p, n) == seq(n, _ => value)
    ensures forall a: nat | p <= a < p + n :: memory(a) == value
  {
    forall a: nat | p <= a < p + n ensures memory(a) == value {
      assert Slice(memory, p, n)[a - p] == value;
    }
  }

  /** Memory, outside what the allocator uses for its own headers and links. */
  class Ram {
    var bytes: nat -> int

    constructor () {
      bytes := _ => 0;
    }

    /** memset */
    method Fill(p: nat, value: int, n: nat)
      modifies this
      ensures Slice(bytes, p, n) == seq(n, _ => value)
      ensures forall a: nat | !(p <= a < p + n) :: bytes(a) == old(bytes)(a)
    {
      var was := bytes;
      bytes := (a: nat) => if p <= a < p + n then value else was(a);
    }

    /** memcpy */
    method Copy(q: nat, p: nat, n: nat)
      modifies this
      ensures Slice(bytes, q, n) == Slice(old(bytes), p, n)
      ensures forall a: nat | !(q <= a < q + n) :: bytes(a) == old(bytes)(a)
    {
      var was := bytes;
      bytes := (a: nat) => if q <= a < q + n then was(p + (a - q)) else was(a);
    }
  }

  function Min(a: int, b: int): int { if a < b then a else b }

  /** The room of block C does not meet the N bytes at P. */
  predicate RoomApart(arenas: map<nat, Arena>, c: Block, p: nat, n: int) {
    && c.arena in arenas && InArena(c, arenas[c.arena])
    && var q := Start(c, arenas[c.arena]); p + n <= q || q + Room(arenas[c.arena]) <= p
  }

  /** A change there leaves C's bytes alone. */
  lemma OthersKept(memory: nat -> int, memory': nat -> int, arenas: map<nat, Arena>, p: nat, n: int,
                   live: map<Block, nat>)
    requires forall a: nat | a < p || p + n <= a :: memory'(a) == memory(a)
    requires forall c | c in live :: RoomApart(arenas, c, p, n)
    ensures forall c | c in live :: BlockBytes(memory', arenas, c) == BlockBytes(memory, arenas, c)
  {
    forall c | c in live ensures BlockBytes(memory', arenas, c) == BlockBytes(memory, arenas, c) {
      assert RoomApart(arenas, c, p, n);
      if Room(arenas[c.arena]) >= 0 {
        SliceKept(memory, memory', Start(c, arenas[c.arena]), Room(arenas[c.arena]));
      }
    }
  }

  /** Nor does a change of B's bytes matter there. */
  lemma Elsewhere(memory: nat -> int, memory': nat -> int, arenas: map<nat, Arena>, b: Block, q: nat, m: int, n: nat)
    requires RoomApart(arenas, b, q, m) && n <= m
    requires var p := Start(b, arenas[b.arena]);
             forall a: nat | a < p || p + Room(arenas[b.arena]) <= a :: memory'(a) == memory(a)
    ensures Slice(memory', q, n) == Slice(memory, q, n)
  {
    SliceKept(memory, memory', q, n);
  }

  /** Blocks stay where they are as long as their arenas do. */
  lemma SameSpots(arenas: map<nat, Arena>, arenas': map<nat, Arena>, memory: nat -> int)
    requires SameArenas(arenas, arenas')
    ensures forall c: Block | c.arena in arenas ::
              && c.arena in arenas' && BlockBytes(memory, arenas', c) == BlockBytes(memory, arenas, c)
              && Room(arenas'[c.arena]) == Room(arenas[c.arena])
              && InArena(c, arenas'[c.arena]) == InArena(c, arenas[c.arena])
              && (InArena(c, arenas[c.arena]) ==> Start(c, arenas'[c.arena]) == Start(c, arenas[c.arena]))
  {
  }

  lemma AtPageStart(free: seq<seq<Block>>, arenas: map<nat, Arena>, live: map<Block, nat>, b: Block)
    requires HeapOk(free, arenas, live, 0) && b in live
    ensures LiveOk(arenas, b, live[b]) && b.arena % PGSIZE == 0 && Room(arenas[b.arena]) >= live[b]
  {
    assert LiveOk(arenas, b, live[b]);
    assert ArenaOk(free, live, b.arena, arenas[b.arena], 0);
  }

  class Heap {
    const pool: Pool
    const ram: Ram
    var free: seq<seq<Block>>            // a free list for each descriptor
    var arenas: map<nat, Arena>          // headers of the held arenas
    ghost var live: map<Block, nat>      // blocks handed out, with the size asked for

    ghost predicate Valid()
      reads this, pool, pool.usedMap, pool.usedMap.bits
    {
      pool.Valid() && HeapOk(free, arenas, live, 0) && Held(pool.base, pool.runs, arenas)
    }

    /** P is the address of block B, handed out for SIZE bytes. */
    ghost predicate HandedOut(p: nat, b: Block, size: nat)
      reads this
    {
      b in live && live[b] == size && LiveOk(arenas, b, size) && Start(b, arenas[b.arena]) == p
    }

    ghost function Others(): Runs
      reads this, pool
    {
      OtherRuns(pool.base, pool.runs, arenas)
    }

    constructor (pool: Pool, ram: Ram)
      requires pool.Valid()
      ensures Valid() && this.pool == pool && this.ram == ram && live == map[] && Others() == pool.runs
    {
      this.pool, this.ram := pool, ram;
      free := seq(DESC_CNT, _ => []);
      arenas, live := map[], map[];
    }

    /** palloc_get_multiple for an arena. */
    method TakeRun(arena: Arena) returns (a: nat)
      requires pool.Valid() && Held(pool.base, pool.runs, arenas) && Pages(arena) > 0
      modifies pool, pool.usedMap.bits
      ensures pool.Valid()
      ensures a == 0 ==> pool.runs == old(pool.runs) && NoRoom(pool.usedMap.Bools(), Pages(arena))
      ensures a != 0 ==> a !in arenas && a % PGSIZE == 0 && Held(pool.base, pool.runs, arenas[a := arena])
      ensures a != 0 ==> OtherRuns(pool.base, pool.runs, arenas[a := arena]) == old(Others())
    {
      a := pool.Get(Pages(arena));
      if a != 0 {
        ghost var k := pool.PageIndex(a);
        PageNumbers(pool.base, a);
        RunTaken(pool.base, old(pool.runs), arenas, k, arena);
      }
    }

    /** palloc_free_multiple for an arena. */
    method ReturnRun(a: nat)
      requires pool.Valid() && Held(pool.base, pool.runs, arenas) && a in arenas
      modifies pool, pool.usedMap.bits
      ensures pool.Valid() && Held(pool.base, pool.runs, arenas - {a})
      ensures OtherRuns(pool.base, pool.runs, arenas - {a}) == old(Others())
    {
      PageNumbers(pool.base, a);
      RunReturned(pool.base, pool.runs, arenas, a);
      pool.Free(a, Pages(arenas[a]));
    }

    /** A new arena for descriptor D, its blocks on the free list. */
    method AddArena(d: nat) returns (a: nat)
      requires Valid() && d < DESC_CNT && free[d] == []
      modifies this, pool, pool.usedMap.bits
      ensures pool.Valid() && Held(pool.base, pool.runs, arenas) && Others() == old(Others()) && live == old(live)
      ensures a == 0 ==> Valid() && free == old(free) && arenas == old(arenas) && NoRoom(pool.usedMap.Bools(), 1)
      ensures a != 0 ==> a !in old(arenas) && arenas == old(arenas)[a := Small(d, PerArena(d))]
      ensures a != 0 ==> HeapOk(free, arenas, live, a) && free[d] != [] && free[d][0].arena == a
    {
      a := TakeRun(Small(d, PerArena(d)));
      if a == 0 {
        return;
      }
      var blocks := [];
      for i := 0 to PerArena(d)
        invariant |blocks| == i && forall j | 0 <= j < i :: blocks[j] == Block(a, j)
      {
        blocks := blocks + [Block(a, i)];
      }
      ArenaAdded(free, arenas, live, a, d, blocks);
      free, arenas := free[d := blocks], arenas[a := Small(d, PerArena(d))];
    }

    /** Hands out the front of the free list of descriptor D. */
    method PopFront(d: nat, size: nat, ghost exception: nat) returns (p: nat, ghost b: Block)
      requires HeapOk(free, arenas, live, exception) && Held(pool.base, pool.runs, arenas)
      requires d < DESC_CNT && free[d] != [] && 0 < size <= BlockSize(d)
               && (exception == 0 || exception == free[d][0].arena)
      modifies this
      ensures HeapOk(free, arenas, live, 0) && Held(pool.base, pool.runs, arenas) && Others() == old(Others())
      ensures b !in old(live) && live == old(live)[b := size] && HandedOut(p, b, size) && p != 0
      ensures b.arena in old(arenas) && SameArenas(old(arenas), arenas)
      ensures b == old(free)[d][0] && b.arena in arenas && arenas[b.arena].Small? && arenas[b.arena].d == d
    {
      FrontIsFree(free, arenas, live, d, exception);
      var first := free[d][0];
      b := first;
      var free', arenas' := free[d := free[d][1..]], arenas[first.arena := Small(d, arenas[first.arena].freeCnt - 1)];
      ghost var live' := live[b := size];
      Popped(pool.base, pool.runs, free, arenas, live, d, b, size, exception, free', arenas', live');
      free, arenas, live := free', arenas', live';
      p := Start(first, arenas[first.arena]);
    }

    /** Enough pages for SIZE bytes and a header. */
    method GetBig(size: nat) returns (p: nat, ghost b: Block)
      requires Valid() && size > 0
      modifies this, pool, pool.usedMap.bits
      ensures Valid() && Others() == old(Others()) && SameArenas(old(arenas), arenas)
      ensures p == 0 ==> live == old(live) && NoRoom(pool.usedMap.Bools(), DivRoundUp(size + HEADER, PGSIZE))
      ensures p != 0 ==> b !in old(live) && live == old(live)[b := size] && HandedOut(p, b, size)
      ensures p != 0 ==> b.arena in arenas && arenas[b.arena] == Big(DivRoundUp(size + HEADER, PGSIZE))
    {
      var pages := DivRoundUp(size + HEADER, PGSIZE);
      var a := TakeRun(Big(pages));
      b := Block(a, 0);
      if a == 0 {
        return 0, b;
      }
      BigAdded(free, arenas, live, a, pages, size);
      var arenas' := arenas[a := Big(pages)];
      arenas, live := arenas', live[b := size];
      p := a + HEADER;
    }

    /** A block of descriptor D, from a new arena if the free list is empty. */
    method GetSmall(d: nat, size: nat) returns (p: nat, ghost b: Block)
      requires Valid() && d < DESC_CNT && 0 < size <= BlockSize(d)
      modifies this, pool, pool.usedMap.bits
      ensures Valid() && Others() == old(Others()) && SameArenas(old(arenas), arenas)
      ensures p == 0 ==> live == old(live) && NoRoom(pool.usedMap.Bools(), 1)
      ensures p != 0 ==> b !in old(live) && live == old(live)[b := size] && HandedOut(p, b, size)
      ensures p != 0 ==> b.arena in arenas && arenas[b.arena].Small? && arenas[b.arena].d == d
      ensures |old(free)| == DESC_CNT && (old(free)[d] != [] ==> p != 0 && pool.runs == old(pool.runs))
    {
      hide Held, OtherRuns, RunsOk, NoRoom, FreeOk, ArenaOk;
      ghost var exception := 0;
      if free[d] == [] {
        var a := AddArena(d);
        if a == 0 {
          return 0, Block(0, 0);
        }
        exception := a;
      }
      p, b := PopFront(d, size, exception);
    }

    /** malloc fails only if it must; a block of the best size is taken from those free before any
        page is asked for. */
    method Malloc(size: nat) returns (p: nat, ghost b: Block)
      requires Valid() && size + HEADER + PGSIZE - 1 < 0x1_0000_0000
      modifies this, pool, pool.usedMap.bits
      ensures Valid() && Others() == old(Others()) && SameArenas(old(arenas), arenas)
      ensures p == 0 ==>
                && live == old(live)
                && (size == 0 || (NoneLeft(old(free), size)
                                  && NoRoom(pool.usedMap.Bools(), DivRoundUp(size + HEADER, PGSIZE))))
      ensures p != 0 ==> b !in old(live) && live == old(live)[b := size] && HandedOut(p, b, size)
      ensures p != 0 ==> BestFit(arenas, b, size) && (!NoneLeft(old(free), size) ==> pool.runs == old(pool.runs))
    {
      if size == 0 {
        return 0, Block(0, 0);
      }
      hide HeapOk, Held, OtherRuns, NoRoom, SameArenas, LiveOk;
      var d := SmallestFit(size);
      OneBest(d, size);
      RoundUpLeast(size + HEADER, PGSIZE);
      if d == DESC_CNT {
        p, b := GetBig(size);
      } else {
        p, b := GetSmall(d, size);
      }
    }

    /** Pushes a block back; its arena may now have none handed out. */
    method PushFront(b: Block, d: nat)
      requires HeapOk(free, arenas, live, 0) && Held(pool.base, pool.runs, arenas) && b in live
      requires b.arena in arenas && arenas[b.arena].Small? && arenas[b.arena].d == d
      modifies this
      ensures HeapOk(free, arenas, live, b.arena) && Held(pool.base, pool.runs, arenas) && Others() == old(Others())
      ensures live == old(live) - {b} && d < DESC_CNT
      ensures arenas == old(arenas)[b.arena := Small(d, old(arenas[b.arena].freeCnt) + 1)]
              && arenas[b.arena].freeCnt <= PerArena(d)
    {
      hide OtherRuns, Held, FreeOk, LiveOk, ArenaOk, Distinct;
      BlockReturned(free, arenas, live, b);
      HeaderRewritten(pool.base, pool.runs, arenas, b.arena, arenas[b.arena].freeCnt + 1);
      var free', arenas' := free[d := [b] + free[d]], arenas[b.arena := Small(d, arenas[b.arena].freeCnt + 1)];
      free, arenas, live := free', arenas', live - {b};
    }

    /** Unlinks the blocks of an arena that are all free, and returns its page. */
    method ReleaseArena(a: nat)
      requires pool.Valid() && HeapOk(free, arenas, live, a) && Held(pool.base, pool.runs, arenas)
      requires a in arenas && arenas[a].Small? && arenas[a].freeCnt == PerArena(arenas[a].d)
      modifies this, pool, pool.usedMap.bits
      ensures Valid() && Others() == old(Others()) && live == old(live) && arenas == old(arenas) - {a}
    {
      hide Held, OtherRuns, RunsOk, NoRoom, FreeOk;
      var d := arenas[a].d;
      var list := Unlinked(free[d], a, PerArena(d));
      ArenaReleased(free, arenas, live, a, list);
      var free', arenas' := free[d := list], arenas - {a};
      ReturnRun(a);
      free, arenas := free', arenas';
    }

    method FreeSmall(b: Block)
      requires Valid() && b in live && arenas[b.arena].Small?
      modifies this, pool, pool.usedMap.bits
      ensures Valid() && Others() == old(Others()) && live == old(live) - {b} && SameArenas(arenas, old(arenas))
    {
      hide Held, OtherRuns, RunsOk, NoRoom, FreeOk;
      var d := arenas[b.arena].d;
      PushFront(b, d);
      if arenas[b.arena].freeCnt >= PerArena(d) {
        ReleaseArena(b.arena);
      } else {
        NoException(free, arenas, live, b.arena);
      }
    }

    method FreeBig(b: Block)
      requires Valid() && b in live && arenas[b.arena].Big?
      modifies this, pool, pool.usedMap.bits
      ensures Valid() && Others() == old(Others()) && live == old(live) - {b} && SameArenas(arenas, old(arenas))
    {
      hide HeapOk, Held, OtherRuns, RunsOk, NoRoom, Room;
      AtPageStart(free, arenas, live, b);
      BigReleased(free, arenas, live, b);
      var arenas' := arenas - {b.arena};
      ReturnRun(b.arena);
      arenas, live := arenas', live - {b};
    }

    /** The block is filled with 0xcc, unless it is a big one; no other block's bytes change. */
    method Free(p: nat, ghost b: Block)
      requires Valid() && (p == 0 || (b in live && HandedOut(p, b, live[b])))
      modifies this, ram, pool, pool.usedMap.bits
      ensures Valid() && Others() == old(Others()) && SameArenas(arenas, old(arenas))
      ensures live == (if p == 0 then old(live) else old(live) - {b})
      ensures p == 0 ==> ram.bytes == old(ram.bytes)
      ensures p != 0 ==>
                forall a: nat | a < p || p + old(Room(arenas[b.arena])) <= a :: ram.bytes(a) == old(ram.bytes)(a)
      ensures p != 0 && old(b.arena in arenas && arenas[b.arena].Small?) ==>
                forall a: nat | p <= a < p + old(Room(arenas[b.arena])) :: ram.bytes(a) == 0xcc
      ensures forall c | c in live :: BlockBytes(ram.bytes, old(arenas), c) == old(BlockBytes(ram.bytes, arenas, c))
    {
      hide Held, OtherRuns, RunsOk, NoRoom, FreeOk, ArenaOk;
      if p == 0 {
        return;
      }
      var a := Page(p);
      assert HeapOk(free, arenas, live, 0);
      AtPageStart(free, arenas, live, b);
      StartOf(b, arenas[b.arena]);
      OthersApart(b);
      ghost var was, before := ram.bytes, arenas;
      var block := At(p, arenas[a]);
      if arenas[a].Small? {
        ram.Fill(p, 0xcc, BlockSize(arenas[a].d));
        AllFilled(ram.bytes, p, 0xcc, BlockSize(arenas[a].d));
        FreeSmall(block);
      } else {
        FreeBig(block);
      }
      OthersKept(was, ram.bytes, before, p, Room(before[a]), live);
    }

    /** The rooms of all other blocks are elsewhere. */
    lemma OthersApart(b: Block)
      requires Valid() && b in live
      ensures LiveOk(arenas, b, live[b]) && Room(arenas[b.arena]) >= 0
      ensures forall c | c in live && c != b :: RoomApart(arenas, c, Start(b, arenas[b.arena]), Room(arenas[b.arena]))
    {
      assert LiveOk(arenas, b, live[b]);
      forall c | c in live && c != b
        ensures RoomApart(arenas, c, Start(b, arenas[b.arena]), Room(arenas[b.arena]))
      {
        assert LiveOk(arenas, c, live[c]);
        OutstandingDisjoint(Start(b, arenas[b.arena]), b, Start(c, arenas[c.arena]), c);
      }
    }

    /** The new block is asked for first, so that a failure leaves the old one in place; the
        new block starts with as many of the old one's bytes as fit, and no other block's
        bytes change. */
    method Realloc(p: nat, ghost b: Block, size: nat) returns (q: nat, ghost c: Block)
      requires Valid() && size + HEADER + PGSIZE - 1 < 0x1_0000_0000
      requires p == 0 || (b in live && HandedOut(p, b, live[b]))
      modifies this, ram, pool, pool.usedMap.bits
      ensures Valid() && Others() == old(Others())
      ensures size == 0 ==> q == 0 && live == (if p == 0 then old(live) else old(live) - {b})
      ensures size > 0 && q == 0 ==>
                && live == old(live) && (p != 0 ==> HandedOut(p, b, live[b])) && ram.bytes == old(ram.bytes)
                && NoneLeft(old(free), size) && NoRoom(pool.usedMap.Bools(), DivRoundUp(size + HEADER, PGSIZE))
      ensures q != 0 ==> c !in old(live) && HandedOut(q, c, size) && BestFit(arenas, c, size)
      ensures q != 0 ==> live == (if p == 0 then old(live) else old(live) - {b})[c := size]
      ensures p != 0 && q != 0 ==>
                && old(live[b] <= Room(arenas[b.arena]))
                && var n := Min(size, old(Room(arenas[b.arena]))); Slice(ram.bytes, q, n) == Slice(old(ram.bytes), p, n)
      ensures forall d | d in old(live) && d in live ::
                BlockBytes(ram.bytes, old(arenas), d) == old(BlockBytes(ram.bytes, arenas, d))
    {
      hide HeapOk, Held, OtherRuns, RunsOk, NoRoom, NoneLeft, FreeOk, ArenaOk, LiveOk, Room, SameArenas, BestFit;
      if size == 0 {
        Free(p, b);
        return 0, b;
      }
      ghost var before := arenas;
      if p != 0 {
        AtPageStart(free, arenas, live, b);
      }
      q, c := Malloc(size);
      SameSpots(before, arenas, ram.bytes);
      if p != 0 {
        AtPageStart(free, arenas, live, b);
      }
      if p != 0 && q != 0 {
        ghost var now := arenas;
        Move(p, b, q, c, size);
        StillBest(now, arenas, c, size);
      }
    }

    /** The rest of realloc, once there is a new block. */
    method Move(p: nat, ghost b: Block, q: nat, ghost c: Block, size: nat)
      requires Valid() && b in live && b != c && HandedOut(p, b, live[b]) && HandedOut(q, c, size) && 0 < size && p != 0
      modifies this, ram, pool, pool.usedMap.bits
      ensures Valid() && Others() == old(Others()) && live == old(live) - {b} && HandedOut(q, c, size)
      ensures SameArenas(arenas, old(arenas))
      ensures var n := Min(size, old(Room(arenas[b.arena])));
              n >= 0
              && Slice(ram.bytes, q, n) == Slice(old(ram.bytes), p, n)
      ensures forall d | d in live && d != c ::
                BlockBytes(ram.bytes, old(arenas), d) == old(BlockBytes(ram.bytes, arenas, d))
    {
      hide HeapOk, Held, OtherRuns, RunsOk, NoRoom, FreeOk, ArenaOk, SameArenas, Slice, BlockBytes, Room;
      AtPageStart(free, arenas, live, b);
      AtPageStart(free, arenas, live, c);
      StartOf(b, arenas[b.arena]);
      OthersApart(c);
      ghost var was, before, rest := ram.bytes, arenas, live - {c};
      var n := Min(size, Room(arenas[Page(p)]));
      ram.Copy(q, p, n);
      OthersKept(was, ram.bytes, arenas, q, n, rest);
      ghost var copied := ram.bytes;
      Free(p, b);
      Elsewhere(copied, ram.bytes, before, b, q, Room(before[c.arena]), n);
      AtPageStart(free, arenas, live, c);
      SameSpots(arenas, before, ram.bytes);
    }

    /** Whatever the calls so far, blocks handed out do not overlap... */
    lemma OutstandingDisjoint(p: nat, b: Block, q: nat, c: Block)
      requires Valid() && b in live && c in live && b != c && HandedOut(p, b, live[b]) && HandedOut(q, c, live[c])
      ensures p + live[b] <= q || q + live[c] <= p
      ensures p + Room(arenas[b.arena]) <= q || q + Room(arenas[c.arena]) <= p
    {
      HeldDisjoint(pool.usedMap.Bools(), pool.base, pool.runs, arenas);
      LiveDisjoint(free, arenas, live, b, c);
    }

    /** ... and once all are freed the pool has back every page it gave to arenas. */
    lemma AllReturned()
      requires Valid() && live == map[]
      ensures arenas == map[] && pool.runs == Others()
    {
      NothingLiveNothingHeld(free, arenas, live);
    }
  }

  lemma RoomInWords(arena: Arena)
    ensures Room(arena) % 4 == 0
  {
  }

  /** setup_stack asks for 4 * argc + 1 bytes and writes argc + 1 pointers: there is room. */
  lemma PointersFit(arenas: map<nat, Arena>, b: Block, argc: nat)
    requires LiveOk(arenas, b, 4 * argc + 1)
    ensures 4 * (argc + 1) <= Room(arenas[b.arena])
  {
    hide Room;
    RoomInWords(arenas[b.arena]);
    LiveFits(arenas, b, 4 * argc + 1);
    WordsFit(Room(arenas[b.arena]), argc);
  }

  lemma LiveFits(arenas: map<nat, Arena>, b: Block, size: nat)
    requires LiveOk(arenas, b, size)
    ensures size <= Room(arenas[b.arena])
  {
  }

  lemma WordsFit(room: int, n: nat)
    requires room % 4 == 0 && 4 * n + 1 <= room
    ensures 4 * (n + 1) <= room
  {
  }

  lemma NoException(free: seq<seq<Block>>, arenas: map<nat, Arena>, live: map<Block, nat>, a: nat)
    requires HeapOk(free, arenas, live, a) && a in arenas && arenas[a].Small? && arenas[a].d < DESC_CNT
             && arenas[a].freeCnt < PerArena(arenas[a].d)
    ensures HeapOk(free, arenas, live, 0)
  {
    forall c | c in arenas ensures ArenaOk(free, live, c, arenas[c], 0) { assert ArenaOk(free, live, c, arenas[c], a); }
  }

  /** free's loop of list_remove over the first N blocks of arena A. */
  method Unlinked(list: seq<Block>, a: nat, n: nat) returns (rest: seq<Block>)
    requires Distinct(list)
    ensures Distinct(rest) && forall b :: b in rest <==> b in list && !(b.arena == a && b.idx < n)
  {
    rest := list;
    for i := 0 to n
      invariant Distinct(rest) && forall b :: b in rest <==> b in list && !(b.arena == a && b.idx < i)
    {
      RemovedOnce(rest, Block(a, i));
      rest := Removed(rest, Block(a, i));
    }
  }
}
