/** vm/swap.c: pages parked in slots of eight sectors. */
module Swap {
  import opened Disk
  import opened Bitmap
  import opened Common

  const SECTORS_PER_PAGE: nat := 8     // PGSIZE / BLOCK_SECTOR_SIZE

  type Page = p: seq<Byte> | |p| == PGSIZE witness seq(PGSIZE, _ => 0)

  function Piece(page: Page, i: nat): Sector
    requires i < SECTORS_PER_PAGE
  {
    page[i * SECTOR_SIZE..(i + 1) * SECTOR_SIZE]
  }

  /** Sector I of SLOT. */
  function SectorOf(slot: nat, i: nat): nat { slot * SECTORS_PER_PAGE + i }

  /** The first N sectors of SLOT hold the first N pieces of PAGE. */
  ghost predicate Holds(sectors: seq<Sector>, slot: nat, page: Page, n: nat) {
    && SectorOf(slot, SECTORS_PER_PAGE) <= |sectors| && n <= SECTORS_PER_PAGE
    && forall i: nat | i < n :: sectors[SectorOf(slot, i)] == Piece(page, i)
  }

  /** Only SLOT's sectors differ. */
  ghost predicate OnlySlot(before: seq<Sector>, after: seq<Sector>, slot: nat) {
    |after| == |before| && forall k | 0 <= k < |after| && k / SECTORS_PER_PAGE != slot :: after[k] == before[k]
  }

  lemma OtherSlotKept(before: seq<Sector>, after: seq<Sector>, slot: nat, other: nat, page: Page)
    requires Holds(before, other, page, SECTORS_PER_PAGE) && other != slot && OnlySlot(before, after, slot)
    ensures Holds(after, other, page, SECTORS_PER_PAGE)
  {
    forall i: nat | i < SECTORS_PER_PAGE ensures after[SectorOf(other, i)] == before[SectorOf(other, i)] {
      assert SectorOf(other, i) / SECTORS_PER_PAGE == other;
    }
  }

  /** vm_swap_out's loop */
  method WriteSlot(device: Device, slot: nat, page: Page)
    requires SectorOf(slot, SECTORS_PER_PAGE) <= |device.sectors|
    modifies device
    ensures Holds(device.sectors, slot, page, SECTORS_PER_PAGE) && OnlySlot(old(device.sectors), device.sectors, slot)
  {
    var counter := 0;
    while counter < SECTORS_PER_PAGE
      invariant counter <= SECTORS_PER_PAGE && Holds(device.sectors, slot, page, counter)
                && OnlySlot(old(device.sectors), device.sectors, slot)
    {
      assert SectorOf(slot, counter) / SECTORS_PER_PAGE == slot;
      device.Write(SectorOf(slot, counter), Piece(page, counter));
      counter := counter + 1;
    }
  }

  /** vm_swap_in's loop */
  method ReadSlot(device: Device, slot: nat, ghost parked: Page) returns (page: Page)
    requires Holds(device.sectors, slot, parked, SECTORS_PER_PAGE)
    ensures page == parked
  {
    var data: seq<Byte> := [];
    var counter := 0;
    while counter < SECTORS_PER_PAGE
      invariant counter <= SECTORS_PER_PAGE && |data| == counter * SECTOR_SIZE
      invariant forall k | 0 <= k < |data| :: data[k] == parked[k]
    {
      var piece := device.Read(SectorOf(slot, counter));
      assert piece == Piece(parked, counter);
      data := data + piece;
      counter := counter + 1;
    }
    page := data;
  }

  class SwapSpace {
    const device: Device
    const swapMap: Bitmap                // a bit per slot, true when available
    ghost var parked: map<nat, Page>     // slots in use and the pages given to vm_swap_out

    ghost predicate Valid()
      reads this, device, swapMap, swapMap.bits
    {
      && swapMap.Valid() && swapMap.bitCnt == |device.sectors| / SECTORS_PER_PAGE
      && SlotsOk(swapMap.Bools(), device.sectors, parked)
    }

    /** vm_swap_init */
    constructor (device: Device)
      ensures Valid() && this.device == device && parked == map[] && fresh(swapMap) && fresh(swapMap.bits)
    {
      this.device := device;
      swapMap := new Bitmap(|device.sectors| / SECTORS_PER_PAGE);
      parked := map[];
      new;
      swapMap.SetMultiple(0, swapMap.bitCnt, true);
    }

    /** vm_swap_out; None is SWAP_ERROR. */
    method SwapOut(page: Page) returns (slot: Option<nat>)
      requires Valid()
      modifies this, device, swapMap.bits
      ensures Valid()
      ensures slot.None? ==> parked == old(parked) && forall i: nat | i < swapMap.bitCnt :: i in parked
      ensures slot.Some? ==> slot.value !in old(parked) && parked == old(parked)[slot.value := page]
    {
      slot := swapMap.ScanAndFlip(0, 1, true);
      if slot.None? {
        NoneAvailable(swapMap.Bools());
      } else {
        WriteSlot(device, slot.value, page);
        SlotTaken(old(swapMap.Bools()), old(device.sectors), device.sectors, parked, slot.value, page);
        parked := parked[slot.value := page];
      }
    }

    /** vm_swap_in */
    method SwapIn(idx: nat) returns (page: Page)
      requires Valid() && idx in parked
      modifies this, swapMap.bits
      ensures Valid() && page == old(parked)[idx] && parked == old(parked) - {idx}
    {
      hide Holds, SlotsOk;
      SlotFreed(swapMap.Bools(), device.sectors, parked, idx);
      page := ReadSlot(device, idx, parked[idx]);
      swapMap.Flip(idx);
      parked := parked - {idx};
    }

    /** vm_clear_swap_slot */
    method ClearSlot(idx: nat)
      requires Valid() && idx in parked
      modifies this, swapMap.bits
      ensures Valid() && parked == old(parked) - {idx}
    {
      hide Holds, SlotsOk;
      SlotFreed(swapMap.Bools(), device.sectors, parked, idx);
      swapMap.Flip(idx);
      parked := parked - {idx};
    }
  }

  /** The slots not available are those in use, and each still holds its page. */
  ghost predicate SlotsOk(available: seq<bool>, sectors: seq<Sector>, parked: map<nat, Page>) {
    && (forall i: nat | i < |available| :: available[i] <==> i !in parked)
    && (forall i | i in parked :: i < |available| && Holds(sectors, i, parked[i], SECTORS_PER_PAGE))
  }

  lemma SlotFreed(available: seq<bool>, sectors: seq<Sector>, parked: map<nat, Page>, slot: nat)
    requires SlotsOk(available, sectors, parked) && slot in parked
    ensures slot < |available| && !available[slot] && Holds(sectors, slot, parked[slot], SECTORS_PER_PAGE)
    ensures SlotsOk(available[slot := !available[slot]], sectors, parked - {slot})
  {
  }

  lemma SlotTaken(available: seq<bool>, before: seq<Sector>, after: seq<Sector>, parked: map<nat, Page>, slot: nat,
                  page: Page)
    requires SlotsOk(available, before, parked) && AllAre(available, slot, 1, true)
    requires Holds(after, slot, page, SECTORS_PER_PAGE) && OnlySlot(before, after, slot)
    ensures slot !in parked && SlotsOk(Filled(available, slot, 1, false), after, parked[slot := page])
  {
    assert available[slot];
    forall i | i in parked ensures Holds(after, i, parked[i], SECTORS_PER_PAGE) {
      OtherSlotKept(before, after, slot, i, parked[i]);
    }
  }

  lemma NoneAvailable(available: seq<bool>)
    requires IsFirstFit(available, 0, 1, true, None)
    ensures forall i: nat | i < |available| :: !available[i]
  {
    forall i: nat | i < |available| ensures !available[i] { assert !AllAre(available, i, 1, true); }
  }
}
