/** ELF32 headers as the loader reads them (kernel/elf.c, kernel/elf.h) and as the image builder writes
    them (make_elf in mkfs.py). */
module ElfFormat {
  import opened Bytes

  const EHDR_SIZE := 52
  const PHDR_SIZE := 32

  datatype Ehdr = Ehdr(ident: seq<byte>, etype: uint16, machine: uint16, entry: uint32, phoff: uint32,
                       phentsize: uint16, phnum: uint16)

  datatype Phdr = Phdr(ptype: uint32, offset: uint32, vaddr: uint32, filesz: uint32, memsz: uint32, flags: uint32)

  function ParseEhdr(b: seq<byte>): Ehdr
    requires |b| == EHDR_SIZE
  {
    Ehdr(b[..16], U16(b, 16), U16(b, 18), U32(b, 24), U32(b, 28), U16(b, 42), U16(b, 44))
  }

  function ParsePhdr(b: seq<byte>): Phdr
    requires |b| == PHDR_SIZE
  {
    Phdr(U32(b, 0), U32(b, 4), U32(b, 8), U32(b, 16), U32(b, 20), U32(b, 24))
  }

  /** validate_ehdr: 0, or which check failed first. */
  function Validate(h: Ehdr): int
    requires |h.ident| == 16
  {
    if h.ident[0] != 0x7F || h.ident[1] != 0x45 || h.ident[2] != 0x4C || h.ident[3] != 0x46 then -1
    else if h.ident[4] != 1 then -2
    else if h.ident[5] != 1 then -3
    else if h.machine != 3 then -4
    else if h.etype != 2 then -5
    else if h.phnum == 0 then -6
    else if h.phentsize < PHDR_SIZE then -7
    else 0
  }

  // ---- the builder -------------------------------------------------------------------------

  function Ident(): (s: seq<byte>)
    ensures |s| == 16
  {
    [0x7F, 0x45, 0x4C, 0x46, 1, 1, 1, 0, 0, 0, 0, 0, 0, 0, 0, 0]
  }

  function EhdrBytes(entry: uint32): seq<byte> {
    Ident() + (Le(2, 2) + (Le(3, 2) + (Le(1, 4) + (Le(entry, 4) + (Le(EHDR_SIZE, 4) + (Le(0, 4) + (Le(0, 4) +
    (Le(EHDR_SIZE, 2) + (Le(PHDR_SIZE, 2) + (Le(1, 2) + (Le(0, 2) + (Le(0, 2) + Le(0, 2)))))))))))))
  }

  function PhdrBytes(entry: uint32, size: uint32): seq<byte> {
    Le(1, 4) + (Le(EHDR_SIZE + PHDR_SIZE, 4) + (Le(entry, 4) + (Le(entry, 4) + (Le(size, 4) + (Le(size, 4) +
    (Le(7, 4) + Le(0x1000, 4)))))))
  }

  /** make_elf: a flat binary in a minimal executable with one segment. */
  function MakeElf(code: seq<byte>, entry: uint32): seq<byte>
    requires |code| < 0x1_0000_0000
  {
    EhdrBytes(entry) + (PhdrBytes(entry, |code|) + code)
  }

  /** The fields of an ELF header the loader does not look at. */
  datatype EhdrRest = EhdrRest(version: uint32, shoff: uint32, flags: uint32, ehsize: uint16, shentsize: uint16,
                               shnum: uint16, shstrndx: uint16)

  /** An ELF header in a file, field by field (Elf32_Ehdr of the System V ABI). */
  function PackEhdr(h: Ehdr, x: EhdrRest): seq<byte> {
    h.ident + (Le(h.etype, 2) + (Le(h.machine, 2) + (Le(x.version, 4) + (Le(h.entry, 4) + (Le(h.phoff, 4) +
    (Le(x.shoff, 4) + (Le(x.flags, 4) + (Le(x.ehsize, 2) + (Le(h.phentsize, 2) + (Le(h.phnum, 2) +
    (Le(x.shentsize, 2) + (Le(x.shnum, 2) + Le(x.shstrndx, 2)))))))))))))
  }

  /** A program header in a file (Elf32_Phdr of the System V ABI). */
  function PackPhdr(p: Phdr, paddr: uint32, align: uint32): seq<byte> {
    Le(p.ptype, 4) + (Le(p.offset, 4) + (Le(p.vaddr, 4) + (Le(paddr, 4) + (Le(p.filesz, 4) + (Le(p.memsz, 4) +
    (Le(p.flags, 4) + Le(align, 4)))))))
  }

  /** The loader reads every field where the format has it. */
  lemma EhdrUnpacks(h: Ehdr, x: EhdrRest)
    requires |h.ident| == 16
    ensures |PackEhdr(h, x)| == EHDR_SIZE && ParseEhdr(PackEhdr(h, x)) == h
  {
    var b := PackEhdr(h, x);
    hide Le;
    var t13 := Le(x.shentsize, 2) + (Le(x.shnum, 2) + Le(x.shstrndx, 2));
    var t10 := Le(h.phnum, 2) + t13;
    var t9 := Le(h.phentsize, 2) + t10;
    var t8 := Le(x.ehsize, 2) + t9;
    var t7 := Le(x.flags, 4) + t8;
    var t6 := Le(x.shoff, 4) + t7;
    var t5 := Le(h.phoff, 4) + t6;
    var t4 := Le(h.entry, 4) + t5;
    var t3 := Le(x.version, 4) + t4;
    var t2 := Le(h.machine, 2) + t3;
    var t1 := Le(h.etype, 2) + t2;
    assert b[0..] == h.ident + t1;
    Peel(b, 0, h.ident, t1);
    Peel(b, 16, Le(h.etype, 2), t2);
    Peel(b, 18, Le(h.machine, 2), t3);
    Peel(b, 20, Le(x.version, 4), t4);
    Peel(b, 24, Le(h.entry, 4), t5);
    Peel(b, 28, Le(h.phoff, 4), t6);
    Peel(b, 32, Le(x.shoff, 4), t7);
    Peel(b, 36, Le(x.flags, 4), t8);
    Peel(b, 40, Le(x.ehsize, 2), t9);
    Peel(b, 42, Le(h.phentsize, 2), t10);
    Peel(b, 44, Le(h.phnum, 2), t13);
    U16Of(b, 16, h.etype);
    U16Of(b, 18, h.machine);
    U32Of(b, 24, h.entry);
    U32Of(b, 28, h.phoff);
    U16Of(b, 42, h.phentsize);
    U16Of(b, 44, h.phnum);
    hide U16, U32;
  }

  lemma PhdrUnpacks(p: Phdr, paddr: uint32, align: uint32)
    ensures |PackPhdr(p, paddr, align)| == PHDR_SIZE && ParsePhdr(PackPhdr(p, paddr, align)) == p
  {
    var b := PackPhdr(p, paddr, align);
    hide Le;
    var t7 := Le(p.flags, 4) + Le(align, 4);
    var t6 := Le(p.memsz, 4) + t7;
    var t5 := Le(p.filesz, 4) + t6;
    var t4 := Le(paddr, 4) + t5;
    var t3 := Le(p.vaddr, 4) + t4;
    var t2 := Le(p.offset, 4) + t3;
    assert b[0..] == Le(p.ptype, 4) + t2;
    Peel(b, 0, Le(p.ptype, 4), t2);
    Peel(b, 4, Le(p.offset, 4), t3);
    Peel(b, 8, Le(p.vaddr, 4), t4);
    Peel(b, 12, Le(paddr, 4), t5);
    Peel(b, 16, Le(p.filesz, 4), t6);
    Peel(b, 20, Le(p.memsz, 4), t7);
    Peel(b, 24, Le(p.flags, 4), Le(align, 4));
    U32Of(b, 0, p.ptype);
    U32Of(b, 4, p.offset);
    U32Of(b, 8, p.vaddr);
    U32Of(b, 16, p.filesz);
    U32Of(b, 20, p.memsz);
    U32Of(b, 24, p.flags);
    hide U32;
  }

  /** What make_elf writes is such a header: for the 386, executable, with one program header right behind. */
  lemma EhdrParses(entry: uint32)
    ensures |EhdrBytes(entry)| == 52
    ensures ParseEhdr(EhdrBytes(entry)) == Ehdr(Ident(), 2, 3, entry, 52, 32, 1)
  {
    hide Le, Ident, ParseEhdr;
    EhdrUnpacks(Ehdr(Ident(), 2, 3, entry, EHDR_SIZE, PHDR_SIZE, 1), EhdrRest(1, 0, 0, EHDR_SIZE, 0, 0, 0));
  }

  /** And its program header says: load `size` bytes from offset 84 to `entry`, readable, writable, executable. */
  lemma PhdrParses(entry: uint32, size: uint32)
    ensures |PhdrBytes(entry, size)| == 32
    ensures ParsePhdr(PhdrBytes(entry, size)) == Phdr(1, 84, entry, size, size, 7)
  {
    hide Le, ParsePhdr;
    PhdrUnpacks(Phdr(1, EHDR_SIZE + PHDR_SIZE, entry, size, size, 7), entry, 0x1000);
  }

  // ---- validate_ehdr -----------------------------------------------------------------------

  /** The bytes of the identification field that are looked at: the mark, 32 bits, little-endian. */
  predicate GoodIdent(ident: seq<byte>)
    requires |ident| == 16
  {
    ident[..6] == [0x7F, 'E' as int, 'L' as int, 'F' as int, 1, 1]
  }

  /** A header passes exactly when it is that of a little-endian 32-bit executable for the 386 with at least one
      program header of at least 32 bytes; otherwise the code names the first field that is wrong. */
  lemma ValidateIff(h: Ehdr)
    requires |h.ident| == 16
    ensures Validate(h) == 0 <==> GoodIdent(h.ident) && h.machine == 3 && h.etype == 2 && h.phnum >= 1 &&
                                  h.phentsize >= 32
    ensures Validate(h) == -1 <==> h.ident[..4] != [0x7F, 'E' as int, 'L' as int, 'F' as int]
    ensures Validate(h) < -1 ==> h.ident[..4] == [0x7F, 'E' as int, 'L' as int, 'F' as int]
    ensures Validate(h) in {-2, -3} ==> !GoodIdent(h.ident) && (Validate(h) == -2 <==> h.ident[4] != 1)
    ensures Validate(h) < -3 ==> GoodIdent(h.ident)
    ensures GoodIdent(h.ident) ==> (Validate(h) == -4 <==> h.machine != 3)
    ensures GoodIdent(h.ident) && h.machine == 3 ==> (Validate(h) == -5 <==> h.etype != 2)
    ensures GoodIdent(h.ident) && h.machine == 3 && h.etype == 2 ==> (Validate(h) == -6 <==> h.phnum == 0)
    ensures -7 <= Validate(h) <= 0
  {
    var mark, i := [0x7F, 'E' as int, 'L' as int, 'F' as int], h.ident;
    assert i[..4] == [i[0], i[1], i[2], i[3]];
    assert i[..6] == i[..4] + [i[4], i[5]];
    assert i[..6][..4] == i[..4];
    assert mark == [0x7F, 0x45, 0x4C, 0x46];
    assert i[..4] == mark <==> i[0] == 0x7F && i[1] == 0x45 && i[2] == 0x4C && i[3] == 0x46;
    assert GoodIdent(i) <==> i[..4] == mark && i[4] == 1 && i[5] == 1;
  }
}
