/** bootloader/boot.c: the loader reads the kernel in whole sectors. */
module BootLoader {
  import opened Bytes
  import opened BootImage

  const ELF_MAGIC: nat := 0x464C_457F
  const SCRATCH: nat := 0x1_0000
  const PAGESIZE: nat := 4096

  /** Sector numbers have 28 bits. */
  const MAX_SECTOR: nat := 0x1000_0000

  // ----- Program headers

  datatype Segment = Segment(offset: nat, va: nat, filesz: nat, memsz: nat)

  /** The program header at `b[o..]`. */
  function SegmentAt(b: seq<Byte>, o: nat): Segment
    requires o + 56 <= |b|
  {
    Segment(U64(b, o + 8), U64(b, o + 16), U64(b, o + 32), U64(b, o + 40))
  }

  function PhOff(elf: seq<Byte>): nat
    requires |elf| >= 64
  {
    U64(elf, 0x20)
  }

  function PhNum(elf: seq<Byte>): nat
    requires |elf| >= 64
  {
    U16(elf, 0x38)
  }

  /** The fields of the file header that the loader reads: the bytes 7F 45 4C 46, the place of the program headers
      in bytes 0x20 to 0x27 and their number in bytes 0x38 and 0x39. */
  lemma HeaderFields(elf: seq<Byte>)
    requires |elf| >= 64
    ensures U32(elf, 0) == ELF_MAGIC <==> elf[..4] == [0x7F, 0x45, 0x4C, 0x46]
    ensures PhOff(elf) == LittleEndian(elf[0x20..0x28]) && PhNum(elf) == LittleEndian(elf[0x38..0x3A])
  {
    hide U32, U16, U64, LittleEndian;
    ReadsLittleEndian(elf, 0x20);
    ReadsLittleEndian(elf, 0x38);
    MagicBytes(elf);
  }

  lemma MagicBytes(elf: seq<Byte>)
    requires |elf| >= 4
    ensures U32(elf, 0) == ELF_MAGIC <==> elf[..4] == [0x7F, 0x45, 0x4C, 0x46]
  {
    var m := [0x7F, 0x45, 0x4C, 0x46];
    LowByteFirst(elf, 0);
    LowByteFirst(elf, 2);
    if U32(elf, 0) == ELF_MAGIC {
      assert elf[0] == 0x7F && elf[1] == 0x45 && elf[2] == 0x4C && elf[3] == 0x46;
      assert elf[..4] == m;
    }
    if elf[..4] == m {
      assert elf[0] == elf[..4][0] && elf[1] == elf[..4][1] && elf[2] == elf[..4][2] && elf[3] == elf[..4][3];
    }
  }

  /** The fields of a program header: offset in the file, address, size in the file and size in memory. */
  lemma SegmentFields(b: seq<Byte>, o: nat)
    requires o + 56 <= |b|
    ensures SegmentAt(b, o).offset == LittleEndian(b[o + 0x08..o + 0x10])
    ensures SegmentAt(b, o).va == LittleEndian(b[o + 0x10..o + 0x18])
    ensures SegmentAt(b, o).filesz == LittleEndian(b[o + 0x20..o + 0x28])
    ensures SegmentAt(b, o).memsz == LittleEndian(b[o + 0x28..o + 0x30])
  {
    hide U32, U16, U64, LittleEndian;
    ReadsLittleEndian(b, o + 0x08);
    ReadsLittleEndian(b, o + 0x10);
    ReadsLittleEndian(b, o + 0x20);
    ReadsLittleEndian(b, o + 0x28);
  }

  /** Header and program headers lie in the file and in its first page. */
  predicate HeadersOK(elf: seq<Byte>) {
    |elf| >= 64 && U32(elf, 0) == ELF_MAGIC && PhOff(elf) + 56 * PhNum(elf) <= Min(PAGESIZE, |elf|)
  }

  function Seg(elf: seq<Byte>, k: nat): Segment
    requires HeadersOK(elf) && k < PhNum(elf)
  {
    SegmentAt(elf, PhOff(elf) + 56 * k)
  }

  // ----- What a load touches

  function Lo(s: Segment): nat { s.va - s.va % 512 }

  /** Number of sectors read. */
  function Sectors(s: Segment): nat { (s.va + s.filesz - Lo(s) + 511) / 512 }

  function Hi(s: Segment): nat { Max(Lo(s) + 512 * Sectors(s), s.va + s.memsz) }

  predicate Apart(lo: nat, hi: nat, lo': nat, hi': nat) { hi <= lo' || hi' <= lo }

  /** The segment lies in the file, at an address congruent to its offset, in memory of `size` bytes,
      and its sectors do not touch the scratch page. */
  predicate SegmentOK(s: Segment, file: nat, size: nat) {
    && s.va % 512 == s.offset % 512
    && s.offset + s.filesz <= file
    && Hi(s) <= size
    && Apart(Lo(s), Hi(s), SCRATCH, SCRATCH + PAGESIZE)
  }

  ghost predicate Bootable(elf: seq<Byte>, size: nat) {
    && HeadersOK(elf) && SCRATCH + PAGESIZE <= size && |elf| <= 512 * (MAX_SECTOR - 2)
    && (forall k :: 0 <= k < PhNum(elf) ==> SegmentOK(Seg(elf, k), |elf|, size))
    && (forall i, j :: 0 <= i < j < PhNum(elf) ==>
          Apart(Lo(Seg(elf, i)), Hi(Seg(elf, i)), Lo(Seg(elf, j)), Hi(Seg(elf, j))))
  }

  /** The file bytes of the segment at its address, and zeros up to its size in memory. */
  predicate LoadedAt(mem: seq<Byte>, elf: seq<Byte>, s: Segment) {
    && s.offset + s.filesz <= |elf| && s.va + Max(s.filesz, s.memsz) <= |mem|
    && mem[s.va..s.va + s.filesz] == elf[s.offset..s.offset + s.filesz]
    && forall a :: s.va + s.filesz <= a < s.va + s.memsz ==> mem[a] == 0
  }

  // ----- The loader

  method ReadSect(disk: seq<Byte>, mem: array<Byte>, dst: nat, sect: nat)
    requires 512 * sect + 512 <= |disk| && sect < MAX_SECTOR && dst + 512 <= mem.Length
    modifies mem
    ensures forall a :: 0 <= a < mem.Length ==>
              mem[a] == if dst <= a < dst + 512 then disk[512 * sect + a - dst] else old(mem[a])
  {
    for i := 0 to 512
      invariant forall a :: 0 <= a < mem.Length ==>
                  mem[a] == if dst <= a < dst + i then disk[512 * sect + a - dst] else old(mem[a])
    {
      mem[dst + i] := disk[512 * sect + i];
    }
  }

  /** Memory at `a` after `boot_readseg`, where it held `was`. */
  function AfterSeg(disk: seq<Byte>, s: Segment, sect: nat, a: nat, was: Byte): Byte
    requires 512 * (sect + Sectors(s)) <= |disk|
  {
    if s.va + s.filesz <= a < s.va + s.memsz then 0
    else if Lo(s) <= a < Lo(s) + 512 * Sectors(s) then disk[512 * sect + a - Lo(s)]
    else was
  }

  method ReadSeg(disk: seq<Byte>, mem: array<Byte>, s: Segment, srcSect: nat)
    requires Hi(s) <= mem.Length && 512 * (srcSect + Sectors(s)) <= |disk| && srcSect + Sectors(s) <= MAX_SECTOR
    modifies mem
    ensures forall a :: 0 <= a < mem.Length ==> mem[a] == AfterSeg(disk, s, srcSect, a, old(mem[a]))
  {
    var endPtr, memEnd := s.va + s.filesz, s.va + s.memsz;
    var ptr, sect := s.va - s.va % 512, srcSect;
    ghost var n := 0;
    while ptr < endPtr
      invariant ptr == Lo(s) + 512 * n && sect == srcSect + n && n <= Sectors(s)
      invariant forall a :: 0 <= a < mem.Length ==>
                  mem[a] == if Lo(s) <= a < ptr then disk[512 * srcSect + a - Lo(s)] else old(mem[a])
    {
      ReadSect(disk, mem, ptr, sect);
      ptr := ptr + 512;
      sect := sect + 1;
      n := n + 1;
    }
    while endPtr < memEnd
      invariant s.va + s.filesz <= endPtr && (endPtr <= memEnd || endPtr == s.va + s.filesz)
      invariant forall a :: 0 <= a < mem.Length ==>
                  mem[a] == if s.va + s.filesz <= a < endPtr then 0
                            else if Lo(s) <= a < Lo(s) + 512 * Sectors(s) then disk[512 * srcSect + a - Lo(s)]
                            else old(mem[a])
    {
      mem[endPtr] := 0;
      endPtr := endPtr + 1;
    }
  }

  // ----- The whole boot

  /** The kernel starts in sector 1. */
  predicate HoldsKernel(disk: seq<Byte>, elf: seq<Byte>) {
    |disk| % 512 == 0 && |disk| >= 1024 * 512 && 512 + |elf| <= |disk| && disk[512..512 + |elf|] == elf
  }

  /** The scratch page holds the first page of the kernel. */
  predicate ScratchHolds(mem: seq<Byte>, elf: seq<Byte>) {
    && SCRATCH + PAGESIZE <= |mem|
    && forall i :: 0 <= i < Min(PAGESIZE, |elf|) ==> mem[SCRATCH + i] == elf[i]
  }

  function HeaderSeg(): Segment { Segment(0, SCRATCH, PAGESIZE, PAGESIZE) }

  /** `after` is `before` once `boot_readseg` loaded `s`. */
  predicate SegRead(disk: seq<Byte>, s: Segment, sect: nat, before: seq<Byte>, after: seq<Byte>) {
    && |after| == |before| && 512 * (sect + Sectors(s)) <= |disk|
    && forall a :: 0 <= a < |after| ==> after[a] == AfterSeg(disk, s, sect, a, before[a])
  }

  lemma SegmentInImage(disk: seq<Byte>, elf: seq<Byte>, s: Segment, size: nat)
    requires HoldsKernel(disk, elf) && SegmentOK(s, |elf|, size)
    ensures 512 * (s.offset / 512 + 1 + Sectors(s)) <= |disk| && Hi(s) <= size
    ensures 512 * (s.offset / 512 + Sectors(s)) < |elf| + 512
  {
    assert 512 * (s.offset / 512 + Sectors(s)) < s.offset + s.filesz + 512;
  }

  lemma ScratchLoaded(disk: seq<Byte>, elf: seq<Byte>, before: seq<Byte>, after: seq<Byte>)
    requires HoldsKernel(disk, elf) && SCRATCH + PAGESIZE <= |before|
    requires SegRead(disk, HeaderSeg(), 1, before, after)
    ensures ScratchHolds(after, elf)
    ensures U32(after, SCRATCH) == U32(disk, 512)
    ensures forall a :: 0 <= a < |after| && !(SCRATCH <= a < SCRATCH + PAGESIZE) ==> after[a] == before[a]
  {
    forall a | SCRATCH <= a < SCRATCH + PAGESIZE ensures after[a] == disk[512 + (a - SCRATCH)] {
      assert after[a] == AfterSeg(disk, HeaderSeg(), 1, a, before[a]);
    }
    forall i | 0 <= i < Min(PAGESIZE, |elf|) ensures after[SCRATCH + i] == elf[i] {
      assert disk[512..512 + |elf|][i] == elf[i];
      assert after[SCRATCH + i] == disk[512 + i];
    }
  }

  lemma HeaderFootprint()
    ensures Sectors(HeaderSeg()) == 8 && Hi(HeaderSeg()) == SCRATCH + PAGESIZE
  {
  }

  lemma ScratchKept(elf: seq<Byte>, s: Segment, before: seq<Byte>, after: seq<Byte>)
    requires ScratchHolds(before, elf) && |after| == |before| && SegmentOK(s, |elf|, |after|)
    requires forall a :: 0 <= a < |after| && !(Lo(s) <= a < Hi(s)) ==> after[a] == before[a]
    ensures ScratchHolds(after, elf)
  {
  }

  lemma WordRead(mem: seq<Byte>, elf: seq<Byte>, o: nat)
    requires ScratchHolds(mem, elf) && o + 8 <= Min(PAGESIZE, |elf|)
    ensures U64(mem, SCRATCH + o) == U64(elf, o) && U16(mem, SCRATCH + o) == U16(elf, o)
  {
    assert forall i :: o <= i < o + 8 ==> mem[SCRATCH + i] == elf[i];
    assert mem[SCRATCH + (o + 1)] == elf[o + 1] && mem[SCRATCH + (o + 2)] == elf[o + 2];
    assert mem[SCRATCH + (o + 3)] == elf[o + 3] && mem[SCRATCH + (o + 4)] == elf[o + 4];
    assert mem[SCRATCH + (o + 5)] == elf[o + 5] && mem[SCRATCH + (o + 6)] == elf[o + 6];
    assert mem[SCRATCH + (o + 7)] == elf[o + 7];
  }

  /** The loader reads the headers of the kernel in the scratch page. */
  lemma HeadersRead(mem: seq<Byte>, elf: seq<Byte>)
    requires ScratchHolds(mem, elf) && HeadersOK(elf)
    ensures U64(mem, SCRATCH + 0x20) == PhOff(elf) && U16(mem, SCRATCH + 0x38) == PhNum(elf)
  {
    WordRead(mem, elf, 0x20);
    WordRead(mem, elf, 0x38);
  }

  lemma SegmentHeaderRead(mem: seq<Byte>, elf: seq<Byte>, k: nat)
    requires ScratchHolds(mem, elf) && HeadersOK(elf) && k < PhNum(elf)
    ensures SCRATCH + PhOff(elf) + 56 * k + 56 <= |mem|
    ensures SegmentAt(mem, SCRATCH + PhOff(elf) + 56 * k) == Seg(elf, k)
  {
    hide U64, U16;
    var o := PhOff(elf) + 56 * k;
    WordRead(mem, elf, o + 8);
    WordRead(mem, elf, o + 16);
    WordRead(mem, elf, o + 32);
    WordRead(mem, elf, o + 40);
  }

  /** The sectors read around the segment hold its bytes at the right place. */
  lemma SegmentLoaded(disk: seq<Byte>, elf: seq<Byte>, s: Segment, before: seq<Byte>, after: seq<Byte>)
    requires HoldsKernel(disk, elf) && SegmentOK(s, |elf|, |before|)
    requires SegRead(disk, s, s.offset / 512 + 1, before, after)
    ensures LoadedAt(after, elf, s)
  {
    var sect := s.offset / 512 + 1;
    assert s.va + s.filesz <= Lo(s) + 512 * Sectors(s);
    var got, want := after[s.va..s.va + s.filesz], elf[s.offset..s.offset + s.filesz];
    forall i | 0 <= i < s.filesz ensures got[i] == want[i] {
      var a := s.va + i;
      assert got[i] == after[a] == AfterSeg(disk, s, sect, a, before[a]);
      assert 512 * sect + a - Lo(s) == 512 + (s.offset + i);
      assert disk[512..512 + |elf|][s.offset + i] == elf[s.offset + i];
    }
    assert got == want;
    forall a | s.va + s.filesz <= a < s.va + s.memsz ensures after[a] == 0 {
      assert after[a] == AfterSeg(disk, s, sect, a, before[a]);
    }
  }

  /** A load changes only its own footprint. */
  lemma SegmentFrame(disk: seq<Byte>, s: Segment, sect: nat, before: seq<Byte>, after: seq<Byte>)
    requires SegRead(disk, s, sect, before, after)
    ensures forall a :: 0 <= a < |after| && !(Lo(s) <= a < Hi(s)) ==> after[a] == before[a]
  {
    forall a | 0 <= a < |after| && !(Lo(s) <= a < Hi(s)) ensures after[a] == before[a] {
      assert after[a] == AfterSeg(disk, s, sect, a, before[a]);
    }
  }

  /** An earlier segment with another footprint stays loaded. */
  lemma SegmentKept(elf: seq<Byte>, s: Segment, lo: nat, hi: nat, before: seq<Byte>, after: seq<Byte>)
    requires LoadedAt(before, elf, s) && |after| == |before| && Apart(Lo(s), Hi(s), lo, hi)
    requires forall a :: 0 <= a < |after| && !(lo <= a < hi) ==> after[a] == before[a]
    ensures LoadedAt(after, elf, s)
  {
    assert s.va + s.filesz <= Lo(s) + 512 * Sectors(s);
    assert after[s.va..s.va + s.filesz] == before[s.va..s.va + s.filesz];
  }

  /** `a` lies in the scratch page or in the footprint of one of the first `n` segments. */
  ghost predicate Touched(elf: seq<Byte>, n: nat, a: nat)
    requires HeadersOK(elf) && n <= PhNum(elf)
  {
    || 0x1_0000 <= a < 0x1_1000
    || exists k :: 0 <= k < n && Lo(Seg(elf, k)) <= a < Hi(Seg(elf, k))
  }

  /** Spins without a kernel in sector 1 (`started` is false); otherwise loads every segment and touches
      nothing else but the scratch page. */
  method Boot(disk: seq<Byte>, mem: array<Byte>, ghost elf: seq<Byte>) returns (started: bool)
    requires HoldsKernel(disk, elf) && SCRATCH + PAGESIZE <= mem.Length
    requires U32(disk, 512) == ELF_MAGIC ==> Bootable(elf, mem.Length)
    modifies mem
    ensures started == (U32(disk, 512) == ELF_MAGIC)
    ensures started ==> forall k :: 0 <= k < PhNum(elf) ==> LoadedAt(mem[..], elf, Seg(elf, k))
    ensures started ==> forall a :: 0 <= a < mem.Length && !Touched(elf, PhNum(elf), a) ==> mem[a] == old(mem[a])
    ensures !started ==>
              forall a :: 0 <= a < mem.Length && !(SCRATCH <= a < SCRATCH + PAGESIZE) ==> mem[a] == old(mem[a])
  {
    hide AfterSeg, LoadedAt, HeadersOK, SegmentOK, SegmentAt, Apart, Hi, Sectors, U64, U32, U16;
    ghost var start := mem[..];
    HeaderFootprint();
    ReadSeg(disk, mem, HeaderSeg(), 1);
    ScratchLoaded(disk, elf, start, mem[..]);
    if U32(mem[..], SCRATCH) != ELF_MAGIC {
      return false;
    }
    HeadersRead(mem[..], elf);
    var ph, eph := SCRATCH + U64(mem[..], SCRATCH + 0x20), U16(mem[..], SCRATCH + 0x38);
    for k := 0 to eph
      invariant ScratchHolds(mem[..], elf)
      invariant forall i :: 0 <= i < k ==> LoadedAt(mem[..], elf, Seg(elf, i))
      invariant forall a :: 0 <= a < mem.Length && !Touched(elf, k, a) ==> mem[a] == start[a]
    {
      SegmentHeaderRead(mem[..], elf, k);
      var s := SegmentAt(mem[..], ph + 56 * k);
      assert SegmentOK(Seg(elf, k), |elf|, mem.Length);
      ghost var before := mem[..];
      SegmentInImage(disk, elf, s, mem.Length);
      ReadSeg(disk, mem, s, s.offset / 512 + 1);
      SegmentLoaded(disk, elf, s, before, mem[..]);
      SegmentFrame(disk, s, s.offset / 512 + 1, before, mem[..]);
      ScratchKept(elf, s, before, mem[..]);
      forall i | 0 <= i < k ensures LoadedAt(mem[..], elf, Seg(elf, i)) {
        assert Apart(Lo(Seg(elf, i)), Hi(Seg(elf, i)), Lo(Seg(elf, k)), Hi(Seg(elf, k)));
        SegmentKept(elf, Seg(elf, i), Lo(s), Hi(s), before, mem[..]);
      }
    }
    started := true;
  }

  /** Building the image and booting it: the builder and the loader agree on the layout. */
  method BuildAndBoot(boot: seq<Byte>, elf: seq<Byte>, args: seq<Arg>, mem: array<Byte>)
    returns (image: Option<seq<Byte>>, started: bool)
    requires Bootable(elf, mem.Length)
    modifies mem
    ensures image == Image(boot, [File(elf)] + args) && started == image.Some?
    ensures started ==> forall k :: 0 <= k < PhNum(elf) ==> LoadedAt(mem[..], elf, Seg(elf, k))
    ensures started ==> forall a :: 0 <= a < mem.Length && !Touched(elf, PhNum(elf), a) ==> mem[a] == old(mem[a])
  {
    hide LoadedAt, Touched, Image;
    image := MakeBootDisk(boot, [File(elf)] + args);
    if image.None? {
      return image, false;
    }
    KernelInImage(boot, elf, args);
    var disk := image.value;
    assert forall i :: 0 <= i < 4 ==> disk[512..512 + |elf|][i] == disk[512 + i] == elf[i];
    assert disk[512 + 0] == elf[0] && disk[512 + 1] == elf[1] && disk[512 + 2] == elf[2] && disk[512 + 3] == elf[3];
    started := Boot(disk, mem, elf);
  }
}
