/** Which files elf_load accepts, and the code it returns for any other (kernel/elf.c); and that a program with a
    code and a data segment arrives as its headers say. */
module LoaderVerdict {
  import opened Bytes
  import opened ElfFormat
  import opened PageSpace
  import opened LoadImage
  import opened Loader
  import opened LoaderTheorems

  /** The bytes from `lo` up to `hi` are in the file, on sectors of 512 bytes that can be read. */
  ghost predicate FileReads(f: File, lo: nat, hi: nat) {
    lo < hi ==> hi <= |f.bytes| && forall s :: s in f.bad ==> hi <= s * 512 || s * 512 + 512 <= lo
  }

  lemma DeliversIff(f: File, off: nat, n: nat)
    ensures Delivers(f, off, n) <==> FileReads(f, off, off + n)
    ensures Delivers(f, off, n) && n > 0 ==> ReadAt(f, off, n).value == f.bytes[off..off + n]
  {
    if n > 0 && off + n <= |f.bytes| {
      forall s: nat ensures off / SECTOR <= s && s * SECTOR < off + n <==> s * 512 < off + n && off < s * 512 + 512 {
      }
    }
  }

  lemma ReadsSplit(f: File, lo: nat, mid: nat, hi: nat)
    requires lo <= mid <= hi
    ensures FileReads(f, lo, hi) <==> FileReads(f, lo, mid) && FileReads(f, mid, hi)
  {
  }

  // ---- headers -----------------------------------------------------------------------------

  /** The ELF header is the first 52 bytes of the file; there is none exactly when they cannot be read. */
  lemma HeaderIsRead(f: File, eh: Ehdr, x: EhdrRest)
    requires |eh.ident| == 16
    ensures Header(f).Some? <==> FileReads(f, 0, 52)
    ensures FileReads(f, 0, 52) && f.bytes[..52] == PackEhdr(eh, x) ==> Header(f) == Some(eh)
  {
    hide ParseEhdr, PackEhdr, Delivers, ReadAt, FileReads;
    DeliversIff(f, 0, EHDR_SIZE);
    EhdrUnpacks(eh, x);
    if FileReads(f, 0, 52) {
      FileIsLongEnough(f, 0, 52);
      assert f.bytes[0..52] == f.bytes[..52];
    }
  }

  lemma FileIsLongEnough(f: File, lo: nat, hi: nat)
    requires FileReads(f, lo, hi) && lo < hi
    ensures hi <= |f.bytes|
  {
  }

  /** Program header `i` is the 32 bytes at phoff + i * phentsize, in 32 bits; it is missing exactly when they
      cannot be read. */
  lemma PhdrIsRead(f: File, eh: Ehdr, i: nat, ph: Phdr, paddr: uint32, align: uint32)
    ensures var off := (eh.phoff + i * eh.phentsize) % 0x1_0000_0000;
            && (ReadPhdr(f, eh, i).Some? <==> FileReads(f, off, off + 32))
            && (FileReads(f, off, off + 32) ==>
                  off + 32 <= |f.bytes| &&
                  (f.bytes[off..off + 32] == PackPhdr(ph, paddr, align) ==> ReadPhdr(f, eh, i) == Some(ph)))
  {
    hide ParsePhdr, PackPhdr, Delivers, ReadAt, FileReads;
    var off: nat := PhdrOffset(eh, i);
    DeliversIff(f, off, PHDR_SIZE);
    PhdrUnpacks(ph, paddr, align);
    if FileReads(f, off, off + 32) { FileIsLongEnough(f, off, off + 32); }
  }

  // ---- the reads of a segment --------------------------------------------------------------

  /** Where the file bytes for the pages from `va` on start. */
  function From(ph: Phdr, va: nat): nat {
    var a := CopyStart(ph, va);
    ph.offset + (if a <= ph.vaddr + ph.filesz then a - ph.vaddr else ph.filesz)
  }

  lemma ChunkIs(f: File, ph: Phdr, va: nat)
    requires Accepted(ph) && EndsInRange(ph) && VaStart(ph) <= va && va % PAGE_SIZE == 0 && va < VaEnd(ph)
    requires From(ph, va) < 0x1_0000_0000
    ensures From(ph, va) <= From(ph, va + PAGE_SIZE) <= ph.offset + ph.filesz
    ensures ChunkReads(f, ph, va) <==> FileReads(f, From(ph, va), From(ph, va + PAGE_SIZE))
  {
    hide VaStart, VaEnd, Delivers, FileReads;
    StartsBelow(ph, va);
    if Overlaps(ph, va) {
      var off, n := ph.offset + (CopyStart(ph, va) - ph.vaddr), CopyEnd(ph, va) - CopyStart(ph, va);
      DeliversIff(f, off, n);
      assert off == From(ph, va) && off + n == From(ph, va + PAGE_SIZE);
    } else {
      assert From(ph, va) == From(ph, va + PAGE_SIZE);
      NothingToRead(f, From(ph, va));
    }
  }

  lemma NothingToRead(f: File, lo: nat)
    ensures FileReads(f, lo, lo)
  {
  }

  lemma StartsBelow(ph: Phdr, va: nat)
    requires VaStart(ph) <= va && va % PAGE_SIZE == 0
    ensures va + PAGE_SIZE > ph.vaddr
  {
  }

  lemma LastPage(ph: Phdr, va: nat)
    requires Accepted(ph) && EndsInRange(ph) && va >= VaEnd(ph)
    ensures From(ph, va) == ph.offset + ph.filesz
  {
    SpanCoversIff(ph);
    hide VaStart, VaEnd;
  }

  lemma ChunksStep(f: File, ph: Phdr, va: nat)
    ensures ChunksRead(f, ph, va) <==>
            (va < VaEnd(ph) ==> ChunkReads(f, ph, va) && ChunksRead(f, ph, va + PAGE_SIZE))
  {
  }

  lemma {:induction false} ChunksFrom(f: File, ph: Phdr, va: nat)
    requires Accepted(ph) && EndsInRange(ph) && VaStart(ph) <= va && va % PAGE_SIZE == 0
    requires From(ph, va) < 0x1_0000_0000 && |f.bytes| <= 0xFFFF_F000
    ensures ChunksRead(f, ph, va) <==> FileReads(f, From(ph, va), ph.offset + ph.filesz)
    decreases VaEnd(ph) - va
  {
    hide VaStart, VaEnd, ChunkReads, FileReads, From, ChunksRead, Accepted, EndsInRange;
    ChunksStep(f, ph, va);
    if va < VaEnd(ph) {
      ChunkIs(f, ph, va);
      var lo, mid, hi := From(ph, va), From(ph, va + PAGE_SIZE), ph.offset + ph.filesz;
      ReadsSplit(f, lo, mid, hi);
      if ChunkReads(f, ph, va) {
        if lo < mid { FileIsLongEnough(f, lo, mid); }
        ChunksFrom(f, ph, va + PAGE_SIZE);
      }
    } else {
      LastPage(ph, va);
      NothingToRead(f, From(ph, va));
    }
  }

  /** The file reads for a segment all deliver exactly when its file-backed part can be read. */
  lemma ChunksReadIff(f: File, ph: Phdr)
    requires Accepted(ph) && |f.bytes| <= 0xFFFF_F000
    ensures ChunksRead(f, ph, VaStart(ph)) <==>
            (ph.vaddr + ph.memsz <= 0xFFFF_F000 ==> FileReads(f, ph.offset, ph.offset + ph.filesz))
  {
    if EndsInRange(ph) {
      StartIsBelow(ph);
      VaStartAligned(ph);
      hide VaStart, FileReads, ChunksRead;
      ChunksFrom(f, ph, VaStart(ph));
    } else {
      hide FileReads;
    }
  }

  // ---- the code ----------------------------------------------------------------------------

  /** Nothing is wrong with program header `i`. */
  ghost predicate Fine(f: File, eh: Ehdr, i: nat) {
    ReadPhdr(f, eh, i).Some? &&
    var ph := ReadPhdr(f, eh, i).value;
    ph.ptype == 1 && ph.memsz != 0 ==>
      && ph.vaddr >= 0x4000_0000 && ph.filesz <= ph.memsz
      && (ph.vaddr + ph.memsz <= 0xFFFF_F000 ==> FileReads(f, ph.offset, ph.offset + ph.filesz))
  }

  lemma OneHeader(f: File, eh: Ehdr, i: nat)
    requires InRange(f) && Header(f) == Some(eh) && i < eh.phnum
    ensures var ph := ReadPhdr(f, eh, i);
            SegmentsVerdict(f, eh, i) ==
            if Fine(f, eh, i) then SegmentsVerdict(f, eh, i + 1)
            else if ph.None? then -101
            else if ph.value.vaddr < 0x4000_0000 then -102
            else if ph.value.filesz > ph.value.memsz then -103
            else -106
  {
    hide ReadPhdr, FileReads, ChunksRead, VaStart, Header;
    var ph := ReadPhdr(f, eh, i);
    if ph.Some? && Loadable(ph.value) && ph.value.vaddr >= USER_MIN_VA && ph.value.filesz <= ph.value.memsz {
      ChunksReadIff(f, ph.value);
    }
    hide NoWrappedPage;
  }

  lemma {:induction false} FirstWrong(f: File, eh: Ehdr, i: nat) returns (j: nat)
    requires InRange(f) && Header(f) == Some(eh) && i <= eh.phnum
    ensures i <= j <= eh.phnum && (forall k :: i <= k < j ==> Fine(f, eh, k)) && (j < eh.phnum ==> !Fine(f, eh, j))
    ensures SegmentsVerdict(f, eh, i) == SegmentsVerdict(f, eh, j)
    decreases eh.phnum - i
  {
    hide Fine, InRange, Header, SegmentsVerdict, ReadPhdr;
    j := i;
    if i < eh.phnum {
      OneHeader(f, eh, i);
      if Fine(f, eh, i) { j := FirstWrong(f, eh, i + 1); }
    }
  }

  /** The code, if memory does not run out: -100 without a header; what validate_ehdr says of a bad one; else that
      of the first program header that cannot be read (-101), lies below 0x40000000 (-102), is larger in the file
      than in memory (-103) or has bytes in the file that cannot be read (-106); and 0 exactly if there is none
      such. */
  lemma VerdictIs(f: File) returns (i: nat)
    requires InRange(f)
    ensures Header(f).None? ==> Verdict(f) == -100
    ensures Header(f).Some? && Validate(Header(f).value) != 0 ==> Verdict(f) == Validate(Header(f).value)
    ensures Header(f).Some? && Validate(Header(f).value) == 0 ==>
              var eh := Header(f).value;
              && i <= eh.phnum && (forall k :: 0 <= k < i ==> Fine(f, eh, k))
              && if i == eh.phnum then Verdict(f) == 0
                 else
                   var ph := ReadPhdr(f, eh, i);
                   && !Fine(f, eh, i)
                   && Verdict(f) == if ph.None? then -101
                                    else if ph.value.vaddr < 0x4000_0000 then -102
                                    else if ph.value.filesz > ph.value.memsz then -103
                                    else -106
  {
    hide Fine, InRange, Header, ReadPhdr, Validate;
    i := 0;
    if Header(f).Some? {
      var eh := Header(f).value;
      i := FirstWrong(f, eh, 0);
      if i < eh.phnum { OneHeader(f, eh, i); }
    }
  }

  // ---- a program with code and data --------------------------------------------------------

  /** A program as linkers make them: `code` for `cva`, and for `dva` `data` and as many zeros as are said. */
  datatype Program = Program(eh: Ehdr, x: EhdrRest, code: seq<byte>, data: seq<byte>, zeros: nat, cva: uint32,
                             dva: uint32)

  /** Code and data share no page and end below the stack. */
  predicate Linkable(p: Program) {
    && p.code != [] && |p.data| + p.zeros > 0 && 0x4000_0000 <= p.cva
    && (p.cva + |p.code| + 4095) / 4096 <= p.dva / 4096 && p.dva + |p.data| + p.zeros <= 0x400F_1000
  }

  predicate GoodEhdr(h: Ehdr) {
    |h.ident| == 16 && GoodIdent(h.ident) && h == Ehdr(h.ident, 2, 3, h.entry, 52, 32, 2)
  }

  /** Flags 5: read and execute. */
  function CodeHeader(p: Program): Phdr
    requires Linkable(p)
  {
    Phdr(1, 116, p.cva, |p.code|, |p.code|, 5)
  }

  /** Flags 6: read and write. */
  function DataHeader(p: Program): Phdr
    requires Linkable(p)
  {
    Phdr(1, 116 + |p.code|, p.dva, |p.data|, |p.data| + p.zeros, 6)
  }

  function ProgramBytes(p: Program): seq<byte>
    requires Linkable(p)
  {
    PackEhdr(p.eh, p.x) + (PackPhdr(CodeHeader(p), p.cva, 0x1000) + (PackPhdr(DataHeader(p), p.dva, 0x1000) +
    (p.code + p.data)))
  }

  lemma PartsAt(s: seq<byte>, a: seq<byte>, b: seq<byte>, c: seq<byte>, code: seq<byte>, data: seq<byte>)
    requires s == a + (b + (c + (code + data))) && |a| == 52 && |b| == |c| == 32
    ensures |s| == 116 + |code| + |data| && s[..52] == a && s[52..84] == b && s[84..116] == c
    ensures s[116..116 + |code|] == code && s[116 + |code|..] == data
  {
  }

  lemma ProgramLayout(p: Program)
    requires Linkable(p) && GoodEhdr(p.eh)
    ensures var s := ProgramBytes(p);
            && |s| == 116 + |p.code| + |p.data| && s[..52] == PackEhdr(p.eh, p.x)
            && s[52..84] == PackPhdr(CodeHeader(p), p.cva, 0x1000)
            && s[84..116] == PackPhdr(DataHeader(p), p.dva, 0x1000)
            && s[116..116 + |p.code|] == p.code && s[116 + |p.code|..] == p.data
  {
    EhdrUnpacks(p.eh, p.x);
    PhdrUnpacks(CodeHeader(p), p.cva, 0x1000);
    PhdrUnpacks(DataHeader(p), p.dva, 0x1000);
    hide PackEhdr, PackPhdr, ParseEhdr, ParsePhdr, CodeHeader, DataHeader;
    PartsAt(ProgramBytes(p), PackEhdr(p.eh, p.x), PackPhdr(CodeHeader(p), p.cva, 0x1000),
            PackPhdr(DataHeader(p), p.dva, 0x1000), p.code, p.data);
  }

  lemma WholeFile(f: File, lo: nat, hi: nat)
    requires f.bad == {} && hi <= |f.bytes|
    ensures FileReads(f, lo, hi)
  {
  }

  lemma EhdrAt(f: File, eh: Ehdr, x: EhdrRest)
    requires GoodEhdr(eh) && f.bad == {} && |f.bytes| >= 52 && f.bytes[..52] == PackEhdr(eh, x)
    ensures Header(f) == Some(eh) && Validate(eh) == 0
  {
    hide PackEhdr, FileReads, Header, Validate;
    WholeFile(f, 0, 52);
    HeaderIsRead(f, eh, x);
    ValidateIff(eh);
  }

  lemma PhdrAt(f: File, eh: Ehdr, i: nat, ph: Phdr, paddr: uint32)
    requires GoodEhdr(eh) && f.bad == {} && i < 2 && 84 + i * 32 <= |f.bytes|
    requires f.bytes[52 + i * 32..84 + i * 32] == PackPhdr(ph, paddr, 0x1000)
    ensures ReadPhdr(f, eh, i) == Some(ph)
  {
    hide PackPhdr, FileReads, ReadPhdr, GoodIdent;
    WholeFile(f, 52 + i * 32, 84 + i * 32);
    PhdrIsRead(f, eh, i, ph, paddr, 0x1000);
  }

  lemma ProgramHeaders(f: File, p: Program)
    requires Linkable(p) && GoodEhdr(p.eh) && f == File(ProgramBytes(p), {})
    ensures Header(f) == Some(p.eh) && Validate(p.eh) == 0
    ensures ReadPhdr(f, p.eh, 0) == Some(CodeHeader(p)) && ReadPhdr(f, p.eh, 1) == Some(DataHeader(p))
  {
    hide *;
    ProgramLayout(p);
    EhdrAt(f, p.eh, p.x);
    PhdrAt(f, p.eh, 0, CodeHeader(p), p.cva);
    PhdrAt(f, p.eh, 1, DataHeader(p), p.dva);
  }

  lemma LowSegment(ph: Phdr)
    requires ph.vaddr + ph.memsz <= 0x8000_0000
    ensures EndsInRange(ph) && NoWrappedPage(ph)
  {
  }

  lemma HeaderIsFine(f: File, eh: Ehdr, i: nat, ph: Phdr)
    requires ReadPhdr(f, eh, i) == Some(ph) && ph.vaddr >= 0x4000_0000 && ph.filesz <= ph.memsz && f.bad == {}
    requires ph.offset + ph.filesz <= |f.bytes|
    ensures Fine(f, eh, i)
  {
    WholeFile(f, ph.offset, ph.offset + ph.filesz);
    hide FileReads, ReadPhdr;
  }

  /** Two headers without fault. */
  lemma TwoFine(f: File, eh: Ehdr, a: Phdr, b: Phdr)
    requires Header(f) == Some(eh) && GoodEhdr(eh) && Validate(eh) == 0 && |f.bytes| <= 0xFFFF_F000
    requires ReadPhdr(f, eh, 0) == Some(a) && Fine(f, eh, 0) && NoWrappedPage(a)
    requires ReadPhdr(f, eh, 1) == Some(b) && Fine(f, eh, 1) && NoWrappedPage(b)
    ensures InRange(f) && Verdict(f) == 0
  {
    hide Fine, ReadPhdr, Header, Validate, Verdict, NoWrappedPage, GoodIdent, Loadable;
    assert InRange(f);
    hide InRange;
    var i := VerdictIs(f);
  }

  lemma ProgramLoads(f: File, p: Program, l: Libc)
    requires Linkable(p) && GoodEhdr(p.eh) && f == File(ProgramBytes(p), {}) && GoodLibc(l)
    ensures Loads(f, p.eh, l)
  {
    var ch, dh := CodeHeader(p), DataHeader(p);
    hide FileReads, ReadPhdr, Header, Validate, NoWrappedPage, Verdict, GoodEhdr, Fine, ProgramBytes, InRange,
         EndsInRange, PackPhdr, PackEhdr;
    ProgramHeaders(f, p);
    ProgramLayout(p);
    LowSegment(ch);
    LowSegment(dh);
    HeaderIsFine(f, p.eh, 0, ch);
    HeaderIsFine(f, p.eh, 1, dh);
    TwoFine(f, p.eh, ch, dh);
  }

  /** Neither a code nor a data page is one of the stack or the library, and they are apart. */
  lemma PagesApart(p: Program, a: nat)
    requires Linkable(p)
    ensures p.cva <= a < p.cva + |p.code| ==> PageNo(a) * 4096 + 4096 <= p.dva && 0x4_0000 <= PageNo(a) < 0x4_00F1
    ensures p.dva <= a < p.dva + |p.data| + p.zeros ==> 0x4_0000 <= PageNo(a) < 0x4_00F1
    ensures PageNo(a) * 4096 <= a < PageNo(a) * 4096 + 4096
  {
    if p.cva <= a < p.cva + |p.code| {
      assert a / 4096 + 1 <= (p.cva + |p.code| + 4095) / 4096;
      assert p.dva / 4096 * 4096 <= p.dva;
    }
  }

  lemma CodeIsLast(f: File, p: Program, l: Libc, a: nat)
    requires Linkable(p) && GoodEhdr(p.eh) && f == File(ProgramBytes(p), {}) && GoodLibc(l)
    requires p.cva <= a < p.cva + |p.code|
    ensures PageIn(CodeHeader(p), PageNo(a)) && LastOn(f, p.eh, l, 0, PageNo(a))
  {
    hide ReadPhdr, Header, Validate, Verdict, InRange, GoodIdent, PageIn, LibcPages, ProgramBytes, PageNo;
    ProgramHeaders(f, p);
    ProgramLoads(f, p, l);
    PagesApart(p, a);
    SegmentPagesIff(f, p.eh, l, 0, CodeHeader(p), PageNo(a));
    SegmentPagesIff(f, p.eh, l, 1, DataHeader(p), PageNo(a));
  }

  lemma DataIsLast(f: File, p: Program, l: Libc, a: nat)
    requires Linkable(p) && GoodEhdr(p.eh) && f == File(ProgramBytes(p), {}) && GoodLibc(l)
    requires p.dva <= a < p.dva + |p.data| + p.zeros
    ensures PageIn(DataHeader(p), PageNo(a)) && LastOn(f, p.eh, l, 1, PageNo(a))
  {
    hide ReadPhdr, Header, Validate, Verdict, InRange, GoodIdent, PageIn, LibcPages, ProgramBytes, PageNo;
    ProgramHeaders(f, p);
    ProgramLoads(f, p, l);
    PagesApart(p, a);
    SegmentPagesIff(f, p.eh, l, 1, DataHeader(p), PageNo(a));
  }

  lemma HeaderFields(p: Program)
    requires Linkable(p) && GoodEhdr(p.eh)
    ensures p.eh.phnum == 2 && Loadable(CodeHeader(p)) && Loadable(DataHeader(p))
    ensures CodeHeader(p) == Phdr(1, 116, p.cva, |p.code|, |p.code|, 5)
    ensures DataHeader(p) == Phdr(1, 116 + |p.code|, p.dva, |p.data|, |p.data| + p.zeros, 6)
  {
    hide GoodIdent;
  }

  /** SegmentIsSeen for a segment whose file bytes are `text`. */
  lemma TextIsSeen(f: File, eh: Ehdr, l: Libc, i: nat, ph: Phdr, text: seq<byte>, a: nat)
    requires Loads(f, eh, l) && i < eh.phnum && ReadPhdr(f, eh, i) == Some(ph) && Loadable(ph)
    requires PageIn(ph, PageNo(a)) && LastOn(f, eh, l, i, PageNo(a)) && ph.vaddr <= a
    requires ph.offset + ph.filesz <= |f.bytes| && f.bytes[ph.offset..ph.offset + ph.filesz] == text
    ensures ByteAt(FullImage(f, eh, l), a) == Some(if a - ph.vaddr < |text| then text[a - ph.vaddr] else 0)
    ensures MayWrite(FullImage(f, eh, l), a) <==> ph.flags % 4 in {2, 3}
  {
    hide *;
    SegmentIsSeen(f, eh, l, i, ph, a);
    if a - ph.vaddr < |text| {
      assert f.bytes[ph.offset + (a - ph.vaddr)] == f.bytes[ph.offset..ph.offset + ph.filesz][a - ph.vaddr];
    }
  }

  lemma CodeIsSeen(f: File, p: Program, l: Libc, a: nat)
    requires Linkable(p) && GoodEhdr(p.eh) && f == File(ProgramBytes(p), {}) && GoodLibc(l)
    requires p.cva <= a < p.cva + |p.code|
    ensures ByteAt(FullImage(f, p.eh, l), a) == Some(p.code[a - p.cva]) && !MayWrite(FullImage(f, p.eh, l), a)
  {
    hide *;
    HeaderFields(p);
    ProgramLoads(f, p, l);
    ProgramHeaders(f, p);
    ProgramLayout(p);
    CodeIsLast(f, p, l, a);
    TextIsSeen(f, p.eh, l, 0, CodeHeader(p), p.code, a);
  }

  lemma DataIsSeen(f: File, p: Program, l: Libc, a: nat)
    requires Linkable(p) && GoodEhdr(p.eh) && f == File(ProgramBytes(p), {}) && GoodLibc(l)
    requires p.dva <= a < p.dva + |p.data| + p.zeros
    ensures ByteAt(FullImage(f, p.eh, l), a) == Some(if a - p.dva < |p.data| then p.data[a - p.dva] else 0)
    ensures MayWrite(FullImage(f, p.eh, l), a)
  {
    hide *;
    HeaderFields(p);
    ProgramLoads(f, p, l);
    ProgramHeaders(f, p);
    ProgramLayout(p);
    DataIsLast(f, p, l, a);
    assert f.bytes[116 + |p.code|..] == f.bytes[116 + |p.code|..116 + |p.code| + |p.data|];
    TextIsSeen(f, p.eh, l, 1, DataHeader(p), p.data, a);
  }

  /** Such a program loads. The process can read its code and cannot write it; its data is there, with zeros
      behind it, and can be written. */
  lemma CodeAndDataLoad(f: File, p: Program, l: Libc, a: nat)
    requires Linkable(p) && GoodEhdr(p.eh) && f == File(ProgramBytes(p), {}) && GoodLibc(l)
    ensures InRange(f) && Verdict(f) == 0 && Header(f) == Some(p.eh)
    ensures p.cva <= a < p.cva + |p.code| ==>
              ByteAt(FullImage(f, p.eh, l), a) == Some(p.code[a - p.cva]) && !MayWrite(FullImage(f, p.eh, l), a)
    ensures p.dva <= a < p.dva + |p.data| + p.zeros ==>
              && ByteAt(FullImage(f, p.eh, l), a) == Some(if a - p.dva < |p.data| then p.data[a - p.dva] else 0)
              && MayWrite(FullImage(f, p.eh, l), a)
  {
    hide InRange, Verdict, Header, FullImage, ByteAt, MayWrite, GoodEhdr, Linkable, ProgramBytes;
    ProgramLoads(f, p, l);
    if p.cva <= a < p.cva + |p.code| { CodeIsSeen(f, p, l, a); }
    if p.dva <= a < p.dva + |p.data| + p.zeros { DataIsSeen(f, p, l, a); }
  }
}
