/** lib/kernel/bitmap.c: a bitmap packed into 32-bit words is a sequence of booleans. */
module Bitmap {
  import opened Bits
  import opened Common

  const ELEM_BITS: nat := 32

  // ---- sequences of booleans ----

  /** The CNT bits from START on exist and are all VALUE. */
  ghost predicate AllAre(b: seq<bool>, start: nat, cnt: nat, value: bool) {
    start + cnt <= |b| && forall i | start <= i < start + cnt :: b[i] == value
  }

  ghost function Filled(b: seq<bool>, start: nat, cnt: nat, value: bool): seq<bool>
    requires start + cnt <= |b|
  {
    seq(|b|, i requires 0 <= i < |b| => if start <= i < start + cnt then value else b[i])
  }

  /** No CNT bits in a row are clear. */
  ghost predicate NoRoom(b: seq<bool>, cnt: nat) {
    forall i: nat :: !AllAre(b, i, cnt, false)
  }

  /** The least position at or after START where CNT bits in a row are VALUE. */
  ghost predicate IsFirstFit(b: seq<bool>, start: nat, cnt: nat, value: bool, r: Option<nat>) {
    match r
    case None => forall j: nat | start <= j :: !AllAre(b, j, cnt, value)
    case Some(i) =>
      && start <= i && AllAre(b, i, cnt, value)
      && forall j: nat | start <= j < i :: !AllAre(b, j, cnt, value)
  }

  /** byte_cnt: the bytes of the words that hold N bits, which is what bitmap_file_size returns. */
  function FileSize(n: nat): nat { 4 * ((n + 31) / 32) }

  /** The least number of whole words that is enough. */
  lemma FileSizeLeast(n: nat, words: nat)
    ensures FileSize(n) % 4 == 0 && (FileSize(n) <= 4 * words <==> n <= ELEM_BITS * words)
  {
  }

  /** last_mask: the bits in use of the last word. */
  function LastMask(n: nat): nat {
    if n % 32 == 0 then Pow2(32) - 1 else Pow2(n % 32) - 1
  }

  lemma LastMaskBits(n: nat, k: nat)
    requires k < 32
    ensures Bit(LastMask(n), k) <==> n % 32 == 0 || k < n % 32
    ensures LastMask(n) < Pow2(32)
  {
    hide Bit, Pow2;
    BitOfMask(if n % 32 == 0 then 32 else n % 32, k);
    Pow2Monotone(n % 32, 32);
  }

  /** The last word of a map of N bits has none set beyond them. */
  ghost predicate SpareClear(word: nat, n: nat) {
    n % 32 != 0 ==> forall k | n % 32 <= k < 32 :: !Bit(word, k)
  }

  lemma MaskedWord(word: nat, n: nat)
    requires word < Pow2(32)
    ensures And(word, LastMask(n)) < Pow2(32) && SpareClear(And(word, LastMask(n)), n)
    ensures forall k: nat | k < 32 && (n % 32 == 0 || k < n % 32) :: Bit(And(word, LastMask(n)), k) == Bit(word, k)
  {
    hide Bit, And, Pow2, LastMask;
    LastMaskBits(n, 0);
    WordSized(word, LastMask(n), 32);
    forall k: nat | k < 32
      ensures Bit(And(word, LastMask(n)), k) <==> Bit(word, k) && (n % 32 == 0 || k < n % 32)
    {
      BitAnd(word, LastMask(n), k);
      LastMaskBits(n, k);
    }
  }

  class Bitmap {
    const bitCnt: nat
    const bits: array<nat>

    ghost predicate Valid()
      reads this, bits
    {
      bits.Length == (bitCnt + 31) / 32 && forall i | 0 <= i < bits.Length :: bits[i] < Pow2(32)
    }

    /** The bitmap as a sequence of booleans. */
    ghost function Bools(): (b: seq<bool>)
      requires Valid()
      reads this, bits
    {
      seq(bitCnt, i requires 0 <= i < bitCnt reads this, bits requires Valid() => Bit(bits[i / 32], i % 32))
    }

    /** bitmap_create */
    constructor (bitCnt: nat)
      ensures Valid() && this.bitCnt == bitCnt && fresh(bits)
      ensures forall i | 0 <= i < bitCnt :: !Bools()[i]
    {
      this.bitCnt := bitCnt;
      bits := new nat[(bitCnt + 31) / 32](i => 0);
      new;
      forall i | 0 <= i < bitCnt ensures !Bools()[i] {
        ZeroHasNoBits(i % 32);
      }
    }

    /** The end of bitmap_read: spare bits of the last word are cleared, the others kept. */
    method MaskLast()
      requires Valid() && bitCnt > 0
      modifies bits
      ensures Valid() && Bools() == old(Bools())
      ensures SpareClear(bits[bits.Length - 1], bitCnt)
    {
      hide Bit, And, Pow2, LastMask;
      var last := bits.Length - 1;
      ghost var was := Bools();
      MaskedWord(bits[last], bitCnt);
      bits[last] := And(bits[last], LastMask(bitCnt));
      forall i | 0 <= i < bitCnt ensures Bools()[i] == was[i] {
        assert i / 32 == last ==> i % 32 < bitCnt % 32 || bitCnt % 32 == 0;
      }
    }

    /** Replaces the word that holds bit IDX by one that differs in that bit only. */
    method Store(idx: nat, word: nat, ghost value: bool)
      requires Valid() && idx < bitCnt && word < Pow2(32)
      requires forall j: nat | j < 32 :: Bit(word, j) == if j == idx % 32 then value else Bit(bits[idx / 32], j)
      modifies bits
      ensures Valid() && Bools() == old(Bools())[idx := value]
    {
      hide Bit, Pow2;
      ghost var b := Bools();
      bits[idx / 32] := word;
      forall i | 0 <= i < bitCnt ensures Bools()[i] == b[idx := value][i] {
        assert i != idx ==> i / 32 != idx / 32 || i % 32 != idx % 32;
      }
    }

    /** bitmap_mark */
    method Mark(idx: nat)
      requires Valid() && idx < bitCnt
      modifies bits
      ensures Valid() && Bools() == old(Bools())[idx := true]
    {
      var word, mask := bits[idx / 32], Pow2(idx % 32);
      MaskFits(idx % 32);
      WordSized(word, mask, 32);
      forall j: nat | j < 32 ensures Bit(Or(word, mask), j) == if j == idx % 32 then true else Bit(word, j) {
        BitOr(word, mask, j);
        BitOfPow2(idx % 32, j);
      }
      Store(idx, Or(word, mask), true);
    }

    /** bitmap_reset */
    method Reset(idx: nat)
      requires Valid() && idx < bitCnt
      modifies bits
      ensures Valid() && Bools() == old(Bools())[idx := false]
    {
      var word, mask := bits[idx / 32], Pow2(idx % 32);
      MaskFits(idx % 32);
      WordSized(word, mask, 32);
      forall j: nat | j < 32 ensures Bit(AndNot(word, mask), j) == if j == idx % 32 then false else Bit(word, j) {
        BitAndNot(word, mask, j);
        BitOfPow2(idx % 32, j);
      }
      Store(idx, AndNot(word, mask), false);
    }

    /** bitmap_flip */
    method Flip(idx: nat)
      requires Valid() && idx < bitCnt
      modifies bits
      ensures Valid() && Bools() == old(Bools()[idx := !Bools()[idx]])
    {
      var word, mask := bits[idx / 32], Pow2(idx % 32);
      MaskFits(idx % 32);
      WordSized(word, mask, 32);
      forall j: nat | j < 32 ensures Bit(Xor(word, mask), j) == if j == idx % 32 then !Bools()[idx] else Bit(word, j) {
        BitXor(word, mask, j);
        BitOfPow2(idx % 32, j);
      }
      Store(idx, Xor(word, mask), !Bools()[idx]);
    }

    /** bitmap_test */
    method Test(idx: nat) returns (value: bool)
      requires Valid() && idx < bitCnt
      ensures value == Bools()[idx]
    {
      var word, mask := bits[idx / 32], Pow2(idx % 32);
      value := And(word, mask) != 0;
      SingleBit(word, idx % 32);
    }

    /** bitmap_set */
    method Set(idx: nat, value: bool)
      requires Valid() && idx < bitCnt
      modifies bits
      ensures Valid() && Bools() == old(Bools())[idx := value]
    {
      if value { Mark(idx); } else { Reset(idx); }
    }

    /** bitmap_set_multiple */
    method SetMultiple(start: nat, cnt: nat, value: bool)
      requires Valid() && start + cnt <= bitCnt
      modifies bits
      ensures Valid() && Bools() == Filled(old(Bools()), start, cnt, value)
    {
      var i := 0;
      while i < cnt
        invariant Valid() && i <= cnt && Bools() == Filled(old(Bools()), start, i, value)
      {
        Set(start + i, value);
        i := i + 1;
      }
    }

    /** bitmap_contains */
    method Contains(start: nat, cnt: nat, value: bool) returns (found: bool)
      requires Valid() && start + cnt <= bitCnt
      ensures found <==> !AllAre(Bools(), start, cnt, !value)
    {
      var i := 0;
      while i < cnt
        invariant i <= cnt && AllAre(Bools(), start, i, !value)
      {
        var bit := Test(start + i);
        if bit == value {
          return true;
        }
        i := i + 1;
      }
      return false;
    }

    /** bitmap_scan; None is BITMAP_ERROR. */
    method Scan(start: nat, cnt: nat, value: bool) returns (r: Option<nat>)
      requires Valid() && start <= bitCnt
      ensures IsFirstFit(Bools(), start, cnt, value, r)
    {
      if cnt <= bitCnt {
        var last := bitCnt - cnt;
        var i := start;
        while i <= last
          invariant start <= i
          invariant forall j: nat | start <= j < i :: !AllAre(Bools(), j, cnt, value)
        {
          var other := Contains(i, cnt, !value);
          if !other {
            return Some(i);
          }
          i := i + 1;
        }
      }
      return None;
    }

    /** bitmap_scan_and_flip */
    method ScanAndFlip(start: nat, cnt: nat, value: bool) returns (r: Option<nat>)
      requires Valid() && start <= bitCnt
      modifies bits
      ensures Valid() && IsFirstFit(old(Bools()), start, cnt, value, r)
      ensures r.None? ==> Bools() == old(Bools())
      ensures r.Some? ==> r.value + cnt <= bitCnt && Bools() == Filled(old(Bools()), r.value, cnt, !value)
    {
      r := Scan(start, cnt, value);
      if r.Some? {
        SetMultiple(r.value, cnt, !value);
      }
    }
  }

  lemma MaskFits(k: nat)
    requires k < 32
    ensures Pow2(k) < Pow2(32)
  {
    Pow2Monotone(k + 1, 32);
  }
}
