/** threads/palloc.c: first-fit page pools on bitmaps. */
module Palloc {
  import opened Bitmap
  import opened Common

  /** Pages handed out and not yet returned: first page of each run, and its length. */
  type Runs = map<nat, nat>

  ghost predicate Within(runs: Runs, start: nat, k: nat)
  {
    start in runs && start <= k < start + runs[start]
  }

  /** Every run is nonempty and inside the pool, no page is in two runs, and the used map
      marks exactly the pages of runs. */
  ghost predicate RunsOk(used: seq<bool>, runs: Runs) {
    && (forall s | s in runs :: 0 < runs[s] && s + runs[s] <= |used|)
    && (forall s, t, k: nat | Within(runs, s, k) && Within(runs, t, k) :: s == t)
    && (forall s, k: nat | Within(runs, s, k) :: used[k])
    && (forall k: nat | k < |used| && used[k] :: exists s :: Within(runs, s, k))
  }

  /** Taking a free range adds a run and disturbs no other. */
  lemma RunAdded(used: seq<bool>, runs: Runs, start: nat, cnt: nat)
    requires RunsOk(used, runs) && cnt > 0 && AllAre(used, start, cnt, false)
    ensures start !in runs && RunsOk(Filled(used, start, cnt, true), runs[start := cnt])
  {
    var used', runs' := Filled(used, start, cnt, true), runs[start := cnt];
    assert start !in runs by { assert start in runs ==> Within(runs, start, start); }
    forall s, k: nat | Within(runs', s, k)
      ensures used'[k] && (s != start ==> Within(runs, s, k) && !(start <= k < start + cnt))
    {
      if s != start { assert Within(runs, s, k); }
    }
    forall k: nat | k < |used'| && used'[k] ensures exists s :: Within(runs', s, k) {
      if start <= k < start + cnt {
        assert Within(runs', start, k);
      } else {
        var s :| Within(runs, s, k);
        assert Within(runs', s, k);
      }
    }
  }

  /** Returning a run frees exactly its pages. */
  lemma RunRemoved(used: seq<bool>, runs: Runs, start: nat)
    requires RunsOk(used, runs) && start in runs
    ensures AllAre(used, start, runs[start], true)
    ensures RunsOk(Filled(used, start, runs[start], false), runs - {start})
  {
    var cnt := runs[start];
    var used', runs' := Filled(used, start, cnt, false), runs - {start};
    forall k: nat | start <= k < start + cnt ensures used[k] { assert Within(runs, start, k); }
    forall s, k: nat | Within(runs', s, k) ensures used'[k] && Within(runs, s, k) {
      assert Within(runs, s, k);
      assert start <= k < start + cnt ==> Within(runs, start, k);
    }
    forall k: nat | k < |used'| && used'[k] ensures exists s :: Within(runs', s, k) {
      var s :| Within(runs, s, k);
      assert s != start;
      assert Within(runs', s, k);
    }
  }

  class Pool {
    const usedMap: Bitmap
    const base: nat          // address of page 0 of the pool
    ghost var runs: Runs

    ghost predicate Valid()
      reads this, usedMap, usedMap.bits
    {
      usedMap.Valid() && base % PGSIZE == 0 && 0 < base && RunsOk(usedMap.Bools(), runs)
    }

    /** init_pool, after the pages for the used map have been set aside. */
    constructor (base: nat, pageCnt: nat)
      requires base % PGSIZE == 0 && 0 < base
      ensures Valid() && this.base == base && usedMap.bitCnt == pageCnt && runs == map[]
      ensures fresh(usedMap) && fresh(usedMap.bits)
    {
      this.base := base;
      usedMap := new Bitmap(pageCnt);
      runs := map[];
    }

    /** The page at ADDR, counted from the base. */
    function PageIndex(addr: nat): int {
      addr / PGSIZE - base / PGSIZE
    }

    /** palloc_get_multiple on one pool; 0 is the null pointer. */
    method Get(pageCnt: nat) returns (addr: nat)
      requires Valid()
      modifies this, usedMap.bits
      ensures Valid()
      ensures addr == 0 ==> runs == old(runs) && (pageCnt == 0 || NoRoom(usedMap.Bools(), pageCnt))
      ensures addr != 0 ==>
        && addr % PGSIZE == 0 && base <= addr && addr + pageCnt * PGSIZE <= base + usedMap.bitCnt * PGSIZE
        && PageIndex(addr) !in old(runs) && pageCnt > 0 && runs == old(runs)[PageIndex(addr) := pageCnt]
    {
      if pageCnt == 0 {
        return 0;
      }
      var idx := usedMap.ScanAndFlip(0, pageCnt, false);
      if idx.None? {
        return 0;
      }
      RunAdded(old(usedMap.Bools()), runs, idx.value, pageCnt);
      runs := runs[idx.value := pageCnt];
      addr := base + PGSIZE * idx.value;
    }

    /** palloc_free_multiple on one pool. */
    method Free(addr: nat, pageCnt: nat)
      requires Valid() && addr % PGSIZE == 0 && PageIndex(addr) in runs && runs[PageIndex(addr)] == pageCnt
      modifies this, usedMap.bits
      ensures Valid() && runs == old(runs) - {PageIndex(addr)}
    {
      var idx := PageIndex(addr);
      RunRemoved(usedMap.Bools(), runs, idx);
      usedMap.SetMultiple(idx, pageCnt, false);
      runs := runs - {idx};
    }
  }

  function DivRoundUp(x: nat, step: nat): nat
    requires step > 0
  {
    (x + step - 1) / step
  }

  /** bitmap_buf_size: struct bitmap, then the words. */
  function BitmapBufSize(bitCnt: nat): nat {
    8 + 4 * DivRoundUp(bitCnt, ELEM_BITS)
  }

  /** Pages that init_pool sets aside for the used map of a pool of PAGE_CNT pages. */
  function MapPages(pageCnt: nat): nat {
    DivRoundUp(BitmapBufSize(pageCnt), PGSIZE)
  }

  /** palloc_init's layout, for KERNEL and USER pages from START on: each pool begins with
      pages that hold the used map of the rest, and the pools follow one another. */
  lemma PoolLayout(start: nat, kernel: nat, user: nat)
    requires start % PGSIZE == 0 && 0 < start && MapPages(kernel) <= kernel && MapPages(user) <= user
    ensures var kernelBase, userBase := start + MapPages(kernel) * PGSIZE, start + (kernel + MapPages(user)) * PGSIZE;
            && kernelBase % PGSIZE == 0 && userBase % PGSIZE == 0
            && start + BitmapBufSize(kernel - MapPages(kernel)) <= kernelBase
            && kernelBase + (kernel - MapPages(kernel)) * PGSIZE + BitmapBufSize(user - MapPages(user)) <= userBase
            && userBase + (user - MapPages(user)) * PGSIZE == start + (kernel + user) * PGSIZE
  {
    hide MapPages, BitmapBufSize;
    MapFits(kernel);
    MapFits(user);
    WholePages(start, MapPages(kernel));
    WholePages(start, kernel + MapPages(user));
  }

  /** DIV_ROUND_UP gives the least number of steps that is enough. */
  lemma RoundUpLeast(x: nat, step: nat)
    requires step > 0
    ensures var n := DivRoundUp(x, step); (n - 1) * step < x <= n * step || x == n == 0
  {
    var y := x + step - 1;
    assert y == y / step * step + y % step;
    assert (y / step - 1) * step == y / step * step - step;
  }

  lemma WholePages(start: nat, n: nat)
    requires start % PGSIZE == 0
    ensures (start + n * PGSIZE) % PGSIZE == 0
  {
  }

  lemma MapFits(pageCnt: nat)
    requires MapPages(pageCnt) <= pageCnt
    ensures BitmapBufSize(pageCnt - MapPages(pageCnt)) <= MapPages(pageCnt) * PGSIZE
  {
    hide DivRoundUp;
    RoundedUp(BitmapBufSize(pageCnt));
    RoundedLess(pageCnt - MapPages(pageCnt), pageCnt);
  }

  lemma RoundedLess(x: nat, y: nat)
    requires x <= y
    ensures DivRoundUp(x, ELEM_BITS) <= DivRoundUp(y, ELEM_BITS)
  {
  }

  lemma RoundedUp(x: nat)
    ensures x <= DivRoundUp(x, PGSIZE) * PGSIZE
  {
  }

  class PageAllocator {
    const kernel: Pool
    const user: Pool

    ghost predicate Valid()
      reads this, kernel, kernel.usedMap, kernel.usedMap.bits, user, user.usedMap, user.usedMap.bits
    {
      && kernel.Valid() && user.Valid()
      && kernel != user && kernel.usedMap.bits != user.usedMap.bits
      && kernel.base + kernel.usedMap.bitCnt * PGSIZE <= user.base
    }

    /** The two calls of init_pool in palloc_init. */
    constructor (kernelBase: nat, kernelPages: nat, userBase: nat, userPages: nat)
      requires kernelBase % PGSIZE == 0 && 0 < kernelBase && userBase % PGSIZE == 0
      requires kernelBase + kernelPages * PGSIZE <= userBase
      ensures Valid() && kernel.runs == map[] && user.runs == map[]
    {
      kernel := new Pool(kernelBase, kernelPages);
      user := new Pool(userBase, userPages);
    }

    /** page_from_pool */
    static predicate FromPool(pool: Pool, addr: nat)
    {
      pool.base / PGSIZE <= addr / PGSIZE < pool.base / PGSIZE + pool.usedMap.bitCnt
    }

    ghost predicate Outstanding(pool: Pool, addr: nat, pageCnt: nat)
      reads pool
    {
      && addr % PGSIZE == 0 && 0 <= pool.PageIndex(addr) && pool.PageIndex(addr) in pool.runs
      && pool.runs[pool.PageIndex(addr)] == pageCnt
    }

    /** A run lies in its pool. */
    lemma InPool(pool: Pool, addr: nat, pageCnt: nat)
      requires pool.Valid() && Outstanding(pool, addr, pageCnt)
      ensures FromPool(pool, addr)
    {
    }

    /** palloc_free_multiple: a run goes back to the pool it came from. */
    method Free(addr: nat, pageCnt: nat)
      requires Valid() && (Outstanding(kernel, addr, pageCnt) || Outstanding(user, addr, pageCnt))
      modifies kernel, kernel.usedMap.bits, user, user.usedMap.bits
      ensures Valid()
      ensures old(Outstanding(kernel, addr, pageCnt)) ==>
                kernel.runs == old(kernel.runs) - {kernel.PageIndex(addr)} && user.runs == old(user.runs)
      ensures old(Outstanding(user, addr, pageCnt)) ==>
                user.runs == old(user.runs) - {user.PageIndex(addr)} && kernel.runs == old(kernel.runs)
    {
      hide RunsOk;
      if Outstanding(kernel, addr, pageCnt) { InPool(kernel, addr, pageCnt); }
      if Outstanding(user, addr, pageCnt) { InPool(user, addr, pageCnt); }
      if FromPool(kernel, addr) {
        kernel.Free(addr, pageCnt);
      } else {
        user.Free(addr, pageCnt);
      }
    }
  }
}
