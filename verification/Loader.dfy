/** userprog/process.c: loading an ELF segment. File offsets, addresses and sizes are 32-bit
    numbers whose sums wrap around. */
module Loader {
  import opened Bits
  import opened Common
  import opened Disk

  const WORD: nat := 0x1_0000_0000

  /** The fields of struct Elf32_Phdr that matter for PT_LOAD. */
  datatype Phdr = Phdr(offset: nat, vaddr: nat, filesz: nat, memsz: nat, flags: nat)

  const PF_W: nat := 2

  /** A page of the process and whether it may write to it. */
  datatype Mapped = Mapped(data: seq<Byte>, writable: bool)

  predicate InWords(ph: Phdr) { ph.offset < WORD && ph.vaddr < WORD && ph.filesz < WORD && ph.memsz < WORD }

  function Add(x: int, y: int): nat { (x + y) % WORD }

  /** ROUND_UP (x, PGSIZE) */
  function RoundUp(x: nat): nat { Add(x, PGSIZE - 1) / PGSIZE * PGSIZE % WORD }

  /** validate_segment */
  predicate Validates(ph: Phdr, fileLength: nat) {
    && ph.offset % PGSIZE == ph.vaddr % PGSIZE
    && ph.offset <= fileLength
    && ph.memsz >= ph.filesz
    && ph.memsz != 0
    && ph.vaddr < PHYS_BASE
    && Add(ph.vaddr, ph.memsz) < PHYS_BASE
    && Add(ph.vaddr, ph.memsz) >= ph.vaddr
    && ph.vaddr >= PGSIZE
  }

  /** What validate_segment accepts, in numbers that do not wrap around: a segment whose place in the
      file and in memory agree within a page and which lies in user space, above page 0. */
  lemma ValidatesExactly(ph: Phdr, fileLength: nat)
    requires InWords(ph)
    ensures Validates(ph, fileLength) <==> Acceptable(ph, fileLength)
  {
  }

  predicate Acceptable(ph: Phdr, fileLength: nat) {
    && ph.offset % PGSIZE == ph.vaddr % PGSIZE && ph.offset <= fileLength
    && ph.filesz <= ph.memsz && 0 < ph.memsz && PGSIZE <= ph.vaddr && ph.vaddr + ph.memsz < PHYS_BASE
  }

  /** What the PT_LOAD case of load computes for load_segment. */
  datatype Layout = Layout(filePage: nat, memPage: nat, readBytes: nat, zeroBytes: nat)

  function LayoutOf(ph: Phdr): Layout {
    var pageOffset := ph.vaddr % PGSIZE;
    var end := RoundUp(Add(pageOffset, ph.memsz));
    var readBytes := if ph.filesz > 0 then Add(pageOffset, ph.filesz) else 0;
    Layout(ph.offset / PGSIZE * PGSIZE, ph.vaddr / PGSIZE * PGSIZE, readBytes, Add(end, -readBytes))
  }

  /** For every header that validate_segment accepts, nothing wraps, load_segment's assertions
      and file_seek's hold, and the pages lie from page 1 up to PHYS_BASE and cover the segment. */
  lemma LayoutMeetsAssertions(ph: Phdr, fileLength: nat)
    requires InWords(ph) && fileLength < 0x8000_0000 && Validates(ph, fileLength)
    ensures var l := LayoutOf(ph);
            && (l.readBytes + l.zeroBytes) % PGSIZE == 0
                && Add(l.readBytes, l.zeroBytes) == l.readBytes + l.zeroBytes > 0
            && l.memPage % PGSIZE == 0 && l.filePage % PGSIZE == 0 && l.filePage <= fileLength
            && PGSIZE <= l.memPage <= ph.vaddr
                && ph.vaddr + ph.memsz <= l.memPage + l.readBytes + l.zeroBytes <= PHYS_BASE
            && (ph.filesz > 0 ==> l.readBytes == ph.vaddr % PGSIZE + ph.filesz) && (ph.filesz == 0 ==> l.readBytes == 0)
            && ph.offset - l.filePage == ph.vaddr - l.memPage == ph.vaddr % PGSIZE
            && l.readBytes + l.zeroBytes < ph.vaddr % PGSIZE + ph.memsz + PGSIZE
  {
    hide LayoutOf;
    LayoutExact(ph, fileLength);
    var l := LayoutOf(ph);
    assert Add(l.readBytes, l.zeroBytes) == l.readBytes + l.zeroBytes;
  }

  lemma LayoutExact(ph: Phdr, fileLength: nat)
    requires InWords(ph) && Validates(ph, fileLength)
    ensures var l, pageOffset := LayoutOf(ph), ph.vaddr % PGSIZE; var end := l.readBytes + l.zeroBytes;
            && l.readBytes == (if ph.filesz > 0 then pageOffset + ph.filesz else 0)
            && end % PGSIZE == 0 && pageOffset + ph.memsz <= end < pageOffset + ph.memsz + PGSIZE
            && l.filePage == ph.offset / PGSIZE * PGSIZE && l.memPage == ph.vaddr / PGSIZE * PGSIZE
                && l.memPage + end <= PHYS_BASE
  {
    hide RoundUp, Add;
    NoWrap(ph.vaddr, ph.memsz);
    var pageOffset := ph.vaddr % PGSIZE;
    var end := RoundUp(pageOffset + ph.memsz);
    RoundUpExact(pageOffset + ph.memsz);
    EndBelow(ph.vaddr, ph.memsz, end);
    Fits(pageOffset, ph.memsz);
    Fits(pageOffset, ph.filesz);
    Fits(end, if ph.filesz > 0 then -(pageOffset + ph.filesz) else 0);
  }

  lemma Fits(x: int, y: int)
    requires 0 <= x + y < WORD
    ensures Add(x, y) == x + y
  {
  }

  lemma NoWrap(x: nat, y: nat)
    requires x < PHYS_BASE && y < WORD && x <= Add(x, y) < PHYS_BASE
    ensures Add(x, y) == x + y
  {
  }

  lemma RoundUpExact(x: nat)
    requires x < PHYS_BASE
    ensures RoundUp(x) % PGSIZE == 0 && x <= RoundUp(x) < x + PGSIZE
  {
  }

  lemma EndBelow(vaddr: nat, memsz: nat, end: nat)
    requires vaddr + memsz < PHYS_BASE && end % PGSIZE == 0
             && vaddr % PGSIZE + memsz <= end < vaddr % PGSIZE + memsz + PGSIZE
    ensures vaddr / PGSIZE * PGSIZE + end <= PHYS_BASE
  {
    var p, q := vaddr / PGSIZE, end / PGSIZE;
    assert p * PGSIZE + q * PGSIZE < PHYS_BASE + PGSIZE;
  }

  // ---- load_segment ----

  /** Byte K of the image that load_segment is to build. */
  function ImageByte(file: seq<Byte>, ofs: nat, readBytes: nat, k: nat): Byte {
    if k < readBytes && ofs + k < |file| then file[ofs + k] else 0
  }

  /** The I-th page from UPAGE on is mapped with the permission and holds its part of the image. */
  ghost predicate PageLoaded(mem: map<nat, Mapped>, file: seq<Byte>, ofs: nat, upage: nat, readBytes: nat,
                             writable: bool, i: nat) {
    && upage + i * PGSIZE in mem && mem[upage + i * PGSIZE].writable == writable
    && Holds(mem[upage + i * PGSIZE].data, file, ofs, readBytes, i * PGSIZE)
  }

  /** PAGE holds the bytes of the image from AT on. */
  ghost predicate Holds(page: seq<Byte>, file: seq<Byte>, ofs: nat, readBytes: nat, at: nat) {
    |page| == PGSIZE && forall k | 0 <= k < PGSIZE :: page[k] == ImageByte(file, ofs, readBytes, at + k)
  }

  /** Where the bytes read for the pages before the I-th end. */
  function ReadEnd(readBytes: nat, i: nat): nat { if readBytes < i * PGSIZE then readBytes else i * PGSIZE }

  /** Nothing prevents loading the I-th page: there is memory (AVAIL), its address is not mapped
      yet, and the file is long enough. */
  predicate Possible(file: seq<Byte>, ofs: nat, upage: nat, readBytes: nat, mem: map<nat, Mapped>,
                     avail: nat -> bool, i: nat) {
    && avail(i) && upage + i * PGSIZE !in mem
    && (ReadEnd(readBytes, i) < ReadEnd(readBytes, i + 1) ==> ofs + ReadEnd(readBytes, i + 1) <= |file|)
  }

  /** load_segment; MEM holds the pages mapped so far, AVAIL(i) tells whether the requests for
      memory made for the I-th page succeed. */
  method LoadSegment(file: seq<Byte>, ofs: nat, upage: nat, readBytes: nat, zeroBytes: nat, writable: bool,
                     mem: map<nat, Mapped>, avail: nat -> bool)
    returns (ok: bool, mem': map<nat, Mapped>)
    requires (readBytes + zeroBytes) % PGSIZE == 0 && upage % PGSIZE == 0 && ofs % PGSIZE == 0
    ensures ok <==> forall i: nat | i * PGSIZE < readBytes + zeroBytes ::
                Possible(file, ofs, upage, readBytes, mem, avail, i)
    ensures ok ==> forall i: nat | i * PGSIZE < readBytes + zeroBytes ::
                PageLoaded(mem', file, ofs, upage, readBytes, writable, i)
    ensures ok ==> forall u :: u in mem' <==>
                  u in mem || (u % PGSIZE == 0 && upage <= u < upage + readBytes + zeroBytes)
    ensures forall u | u in mem :: u in mem' && mem'[u] == mem[u]
  {
    mem' := mem;
    var left, zeros, n, pos := readBytes, zeroBytes, 0, ofs;
    while left > 0 || zeros > 0
      invariant left == readBytes - ReadEnd(readBytes, n) && zeros >= 0 && pos == ofs + ReadEnd(readBytes, n)
      invariant left + zeros == readBytes + zeroBytes - n * PGSIZE
      invariant forall i: nat | i < n :: PageLoaded(mem', file, ofs, upage, readBytes, writable, i)
      invariant forall u :: u in mem' <==> u in mem || (u % PGSIZE == 0 && upage <= u < upage + n * PGSIZE)
      invariant forall u | u in mem :: u in mem' && mem'[u] == mem[u]
      invariant forall i: nat | i < n :: Possible(file, ofs, upage, readBytes, mem, avail, i)
      decreases left + zeros
    {
      var pageRead := if left < PGSIZE then left else PGSIZE;
      var pageZero := PGSIZE - pageRead;
      var page := upage + n * PGSIZE;
      if !avail(n) || (pageRead > 0 && pos + pageRead > |file|) || page in mem' {
        assert !Possible(file, ofs, upage, readBytes, mem, avail, n);
        return false, mem';
      }
      var data := (if pageRead > 0 then file[pos..pos + pageRead] else []) + seq(pageZero, _ => 0);
      LoadedOne(mem', file, ofs, upage, readBytes, writable, n, data, mem'[page := Mapped(data, writable)]);
      mem', n := mem'[page := Mapped(data, writable)], n + 1;
      left, zeros, pos := left - pageRead, zeros - pageZero, pos + pageRead;
    }
    ok := true;
  }

  /** Page N, just read and filled up with zeros, joins the others. */
  lemma LoadedOne(mem: map<nat, Mapped>, file: seq<Byte>, ofs: nat, upage: nat, readBytes: nat, writable: bool,
                  n: nat, data: seq<Byte>, mem': map<nat, Mapped>)
    requires mem' == mem[upage + n * PGSIZE := Mapped(data, writable)]
    requires upage + n * PGSIZE !in mem && forall i: nat | i < n ::
               PageLoaded(mem, file, ofs, upage, readBytes, writable, i)
    requires |data| == PGSIZE
    requires var at, end := ReadEnd(readBytes, n), ReadEnd(readBytes, n + 1);
             && (at < end ==> ofs + end <= |file|)
             && forall k | 0 <= k < PGSIZE :: data[k] == if k < end - at then file[ofs + at + k] else 0
    ensures forall i: nat | i < n + 1 :: PageLoaded(mem', file, ofs, upage, readBytes, writable, i)
  {
    assert Holds(data, file, ofs, readBytes, n * PGSIZE);
    forall i: nat | i < n + 1 ensures PageLoaded(mem', file, ofs, upage, readBytes, writable, i) {
      if i < n { assert PageLoaded(mem, file, ofs, upage, readBytes, writable, i); }
    }
  }

  // ---- the PT_LOAD case as a whole ----

  /** Nothing prevents loading any page of the segment. */
  ghost predicate CanLoad(ph: Phdr, file: seq<Byte>, mem: map<nat, Mapped>, avail: nat -> bool) {
    var l := LayoutOf(ph);
    forall i: nat | i * PGSIZE < l.readBytes + l.zeroBytes ::
      Possible(file, l.filePage, l.memPage, l.readBytes, mem, avail, i)
  }

  /** U is a page that the segment reaches into. */
  predicate Touches(ph: Phdr, u: nat) {
    u % PGSIZE == 0 && ph.vaddr < u + PGSIZE && u < ph.vaddr + ph.memsz
  }

  /** The file has all of p_filesz, none of the segment's pages is mapped yet, and there is memory for
      each of them, counted from the first. */
  ghost predicate HasAll(ph: Phdr, file: seq<Byte>, mem: map<nat, Mapped>, avail: nat -> bool) {
    && ph.offset + ph.filesz <= |file|
    && forall u: nat | Touches(ph, u) :: u !in mem && avail(u / PGSIZE - ph.vaddr / PGSIZE)
  }

  /** The byte at offset K of a segment: from the file, or zero. */
  function SegmentByte(ph: Phdr, file: seq<Byte>, k: nat): Byte {
    if k < ph.filesz && ph.offset + k < |file| then file[ph.offset + k] else 0
  }

  /** The process reads B at address A. */
  predicate Reads(mem: map<nat, Mapped>, a: nat, b: Byte) {
    && a / PGSIZE * PGSIZE in mem && |mem[a / PGSIZE * PGSIZE].data| == PGSIZE
    && mem[a / PGSIZE * PGSIZE].data[a % PGSIZE] == b
  }

  /** The PT_LOAD case of load: it succeeds exactly for an acceptable header of a segment that can be
      had in full, and then the process sees the file's bytes at the segment's address, followed by
      zeros up to p_memsz, and may write there if p_flags says so. */
  method LoadPhdr(file: seq<Byte>, ph: Phdr, mem: map<nat, Mapped>, avail: nat -> bool)
    returns (ok: bool, mem': map<nat, Mapped>)
    requires InWords(ph) && |file| < 0x8000_0000
    ensures ok <==> Acceptable(ph, |file|) && HasAll(ph, file, mem, avail)
    ensures ok ==> forall k: nat | k < ph.memsz :: Reads(mem', ph.vaddr + k, SegmentByte(ph, file, k))
    ensures ok ==> forall u: nat :: u in mem' <==> u in mem || Touches(ph, u)
    ensures ok ==> forall u: nat | Touches(ph, u) :: mem'[u].writable == Bit(ph.flags, 1)
    ensures forall u | u in mem :: u in mem' && mem'[u] == mem[u]
  {
    ValidatesExactly(ph, |file|);
    if !Validates(ph, |file|) {
      return false, mem;
    }
    hide LayoutOf, PageLoaded, Possible, SegmentByte, Reads, And, Bit, HasAll, Touches, Acceptable, Validates;
    LayoutMeetsAssertions(ph, |file|);
    LoadsExactly(ph, file, mem, avail);
    var l := LayoutOf(ph);
    ok, mem' := LoadSegment(file, l.filePage, l.memPage, l.readBytes, l.zeroBytes, IsWritable(ph), mem, avail);
    if ok {
      forall k: nat | k < ph.memsz ensures Reads(mem', ph.vaddr + k, SegmentByte(ph, file, k)) {
        SegmentSeen(ph, file, mem', k);
      }
      forall u: nat ensures InSegment(ph, u) <==> Touches(ph, u) {
        PagesTouched(ph, |file|, u);
      }
      forall u: nat | InSegment(ph, u) ensures u in mem' && mem'[u].writable == Bit(ph.flags, 1) {
        SegmentPermission(ph, file, mem', u);
        WriteBit(ph);
      }
    }
  }

  predicate IsWritable(ph: Phdr) { And(ph.flags, PF_W) != 0 }

  /** U is a page of the segment's layout. */
  predicate InSegment(ph: Phdr, u: nat) {
    var l := LayoutOf(ph);
    u % PGSIZE == 0 && l.memPage <= u < l.memPage + l.readBytes + l.zeroBytes
  }

  /** The pages of the layout are those that the segment reaches into. */
  lemma PagesTouched(ph: Phdr, fileLength: nat, u: nat)
    requires InWords(ph) && fileLength < 0x8000_0000 && Validates(ph, fileLength)
    ensures InSegment(ph, u) <==> Touches(ph, u)
  {
    hide LayoutOf, Validates;
    LayoutMeetsAssertions(ph, fileLength);
    var l := LayoutOf(ph);
    if u % PGSIZE == 0 { Pages(l.memPage, l.memPage + l.readBytes + l.zeroBytes, u, ph.vaddr, ph.memsz); }
  }

  lemma Pages(first: nat, end: nat, u: nat, vaddr: nat, memsz: nat)
    requires first % PGSIZE == 0 && end % PGSIZE == 0 && u % PGSIZE == 0
    requires first <= vaddr < first + PGSIZE && vaddr + memsz <= end < vaddr + memsz + PGSIZE
    ensures first <= u < end <==> vaddr < u + PGSIZE && u < vaddr + memsz
  {
    var f, e, p := first / PGSIZE, end / PGSIZE, u / PGSIZE;
    assert first == f * PGSIZE && end == e * PGSIZE && u == p * PGSIZE;
  }

  lemma WriteBit(ph: Phdr)
    ensures IsWritable(ph) <==> Bit(ph.flags, 1)
  {
    assert Pow2(1) == 2;
    SingleBit(ph.flags, 1);
  }

  /** The page of a segment at address U is the I-th. */
  lemma PageNumber(ph: Phdr, fileLength: nat, i: nat)
    requires InWords(ph) && fileLength < 0x8000_0000 && Validates(ph, fileLength)
    ensures var l := LayoutOf(ph); var u := l.memPage + i * PGSIZE;
            && u % PGSIZE == 0 && u / PGSIZE - ph.vaddr / PGSIZE == i
            && (Touches(ph, u) <==> i * PGSIZE < l.readBytes + l.zeroBytes)
  {
    hide LayoutOf, Validates;
    LayoutMeetsAssertions(ph, fileLength);
    var l := LayoutOf(ph);
    InPage(l.memPage, l.memPage + i * PGSIZE, i);
    InPage(l.memPage, ph.vaddr, 0);
    PagesTouched(ph, fileLength, l.memPage + i * PGSIZE);
  }

  /** Every page can be loaded exactly when the segment can be had in full. */
  lemma LoadsExactly(ph: Phdr, file: seq<Byte>, mem: map<nat, Mapped>, avail: nat -> bool)
    requires InWords(ph) && |file| < 0x8000_0000 && Validates(ph, |file|)
    ensures CanLoad(ph, file, mem, avail) <==> HasAll(ph, file, mem, avail)
  {
    hide LayoutOf, Validates;
    LayoutMeetsAssertions(ph, |file|);
    var l := LayoutOf(ph);
    if CanLoad(ph, file, mem, avail) {
      FileLongEnough(ph, file, mem, avail);
      forall u: nat | Touches(ph, u) ensures u !in mem && avail(u / PGSIZE - ph.vaddr / PGSIZE) {
        PagesTouched(ph, |file|, u);
        var i := (u - l.memPage) / PGSIZE;
        InPage(l.memPage, u, i);
        PageNumber(ph, |file|, i);
        assert Possible(file, l.filePage, l.memPage, l.readBytes, mem, avail, i);
      }
    }
    if HasAll(ph, file, mem, avail) {
      forall i: nat | i * PGSIZE < l.readBytes + l.zeroBytes
        ensures Possible(file, l.filePage, l.memPage, l.readBytes, mem, avail, i)
      {
        PageNumber(ph, |file|, i);
        assert l.memPage + i * PGSIZE !in mem;
      }
    }
  }

  /** The reads of load_segment can only succeed if the file has all of p_filesz. */
  lemma FileLongEnough(ph: Phdr, file: seq<Byte>, mem: map<nat, Mapped>, avail: nat -> bool)
    requires InWords(ph) && |file| < 0x8000_0000 && Validates(ph, |file|) && CanLoad(ph, file, mem, avail)
    ensures ph.offset + ph.filesz <= |file|
  {
    hide LayoutOf;
    LayoutMeetsAssertions(ph, |file|);
    var l := LayoutOf(ph);
    if ph.filesz > 0 {
      var i := (l.readBytes - 1) / PGSIZE;
      assert i * PGSIZE < l.readBytes + l.zeroBytes;
      assert Possible(file, l.filePage, l.memPage, l.readBytes, mem, avail, i);
    }
  }

  /** What the process sees at one address of a loaded segment. */
  lemma SegmentSeen(ph: Phdr, file: seq<Byte>, mem: map<nat, Mapped>, k: nat)
    requires InWords(ph) && |file| < 0x8000_0000 && Validates(ph, |file|) && k < ph.memsz
    requires var l := LayoutOf(ph);
             forall i: nat | i * PGSIZE < l.readBytes + l.zeroBytes ::
               PageLoaded(mem, file, l.filePage, l.memPage, l.readBytes, IsWritable(ph), i)
    ensures Reads(mem, ph.vaddr + k, SegmentByte(ph, file, k))
  {
    hide LayoutOf;
    LayoutMeetsAssertions(ph, |file|);
    var l, a := LayoutOf(ph), ph.vaddr + k;
    var i := (a - l.memPage) / PGSIZE;
    InPage(l.memPage, a, i);
    assert PageLoaded(mem, file, l.filePage, l.memPage, l.readBytes, IsWritable(ph), i);
  }

  lemma SegmentPermission(ph: Phdr, file: seq<Byte>, mem: map<nat, Mapped>, u: nat)
    requires InWords(ph) && |file| < 0x8000_0000 && Validates(ph, |file|) && InSegment(ph, u)
    requires var l := LayoutOf(ph);
             forall i: nat | i * PGSIZE < l.readBytes + l.zeroBytes ::
               PageLoaded(mem, file, l.filePage, l.memPage, l.readBytes, IsWritable(ph), i)
    ensures u in mem && mem[u].writable == IsWritable(ph)
  {
    hide LayoutOf, IsWritable;
    LayoutMeetsAssertions(ph, |file|);
    var l := LayoutOf(ph);
    var i := (u - l.memPage) / PGSIZE;
    InPage(l.memPage, u, i);
    assert PageLoaded(mem, file, l.filePage, l.memPage, l.readBytes, IsWritable(ph), i);
  }

  lemma InPage(base: nat, a: nat, i: nat)
    requires base % PGSIZE == 0 && base <= a && i == (a - base) / PGSIZE
    ensures a / PGSIZE * PGSIZE == base + i * PGSIZE && a % PGSIZE == a - base - i * PGSIZE
  {
  }
}
