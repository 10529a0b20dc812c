/** What a loaded program's address space must look like: the segments of its file, the C library and the
    stack, page by page; and the code elf_load returns when memory does not run out. */
module LoadImage {
  import opened Bytes
  import opened ElfFormat
  import opened PageSpace

  const SECTOR := 512
  const USER_MIN_VA := 0x4000_0000
  const LIBC_VA := 0x7000_0000
  const MAX_LIBC := 0x10_0000
  const STACK_VA := 0x4010_0000
  const STACK_PAGES := 16
  const STACK_LOW := STACK_VA + PAGE_SIZE - STACK_PAGES * PAGE_SIZE

  /** A file and the sectors of it that cannot be read. */
  datatype File = File(bytes: seq<byte>, bad: set<nat>)

  /** fs_read: the bytes there are, or nothing when a sector that holds one of them cannot be read. */
  function ReadAt(f: File, off: nat, n: nat): (r: Option<seq<byte>>)
    ensures r.Some? ==> |r.value| <= n
  {
    if off >= |f.bytes| || n == 0 then Some([])
    else
      var m := if off + n > |f.bytes| then |f.bytes| - off else n;
      if exists s :: s in f.bad && off / SECTOR <= s && s * SECTOR < off + m then None
      else Some(f.bytes[off..off + m])
  }

  /** A read that delivers everything asked for. */
  predicate Delivers(f: File, off: nat, n: nat) {
    var r := ReadAt(f, off, n);
    r.Some? && |r.value| == n
  }

  // ---- segments ----------------------------------------------------------------------------

  function PhdrOffset(eh: Ehdr, i: nat): uint32 {
    Wrap32(eh.phoff + i * eh.phentsize)
  }

  function ReadPhdr(f: File, eh: Ehdr, i: nat): Option<Phdr> {
    if Delivers(f, PhdrOffset(eh, i), PHDR_SIZE) then Some(ParsePhdr(ReadAt(f, PhdrOffset(eh, i), PHDR_SIZE).value))
    else None
  }

  /** The headers the loader does not skip: PT_LOAD, and not empty. */
  predicate Loadable(ph: Phdr) {
    ph.ptype == 1 && ph.memsz != 0
  }

  predicate Writable(ph: Phdr) {
    ph.flags / 2 % 2 == 1
  }

  function AlignDown(v: uint32): uint32 {
    v - v % PAGE_SIZE
  }

  function AlignUp(v: uint32): uint32 {
    AlignDown(Wrap32(v + (PAGE_SIZE - 1)))
  }

  function VaStart(ph: Phdr): uint32 {
    AlignDown(ph.vaddr)
  }

  function VaEnd(ph: Phdr): uint32 {
    AlignUp(Wrap32(ph.vaddr + ph.memsz))
  }

  /** The segment ends low enough for its page-aligned end to be a 32-bit number. */
  predicate EndsInRange(ph: Phdr) {
    ph.vaddr + ph.memsz <= 0xFFFF_F000
  }

  /** The pages the loader maps for a segment contain all of it exactly when it ends in range: otherwise the
      rounded end wraps, and the loop over the pages stops early or never starts. */
  lemma SpanCoversIff(ph: Phdr)
    requires ph.memsz != 0
    ensures EndsInRange(ph) <==> VaEnd(ph) >= ph.vaddr + ph.memsz
    ensures EndsInRange(ph) ==> VaEnd(ph) < ph.vaddr + ph.memsz + PAGE_SIZE && VaStart(ph) < VaEnd(ph)
    ensures VaStart(ph) % PAGE_SIZE == VaEnd(ph) % PAGE_SIZE == 0
  {
  }

  /** The byte a segment puts at address `a`. */
  function SegmentByte(bytes: seq<byte>, ph: Phdr, a: nat): byte {
    if ph.vaddr <= a < ph.vaddr + ph.filesz && ph.offset + (a - ph.vaddr) < |bytes|
    then bytes[ph.offset + (a - ph.vaddr)] else 0
  }

  function SegmentPage(bytes: seq<byte>, ph: Phdr, va: nat): (b: seq<byte>)
    ensures |b| == PAGE_SIZE
  {
    seq<byte>(PAGE_SIZE, k requires 0 <= k < PAGE_SIZE => SegmentByte(bytes, ph, va + k))
  }

  /** Does the page at `va` overlap the file-backed part of the segment, and where. */
  predicate Overlaps(ph: Phdr, va: nat) {
    va < ph.vaddr + ph.filesz && va + PAGE_SIZE > ph.vaddr
  }

  function CopyStart(ph: Phdr, va: nat): nat {
    if va > ph.vaddr then va else ph.vaddr
  }

  function CopyEnd(ph: Phdr, va: nat): nat {
    if va + PAGE_SIZE < ph.vaddr + ph.filesz then va + PAGE_SIZE else ph.vaddr + ph.filesz
  }

  /** The file read for the page at `va`, if one is needed, delivers. */
  predicate ChunkReads(f: File, ph: Phdr, va: nat) {
    Overlaps(ph, va) ==>
      Delivers(f, Wrap32(ph.offset + (CopyStart(ph, va) - ph.vaddr)), CopyEnd(ph, va) - CopyStart(ph, va))
  }

  /** All file reads for the pages from `va` on deliver. */
  predicate ChunksRead(f: File, ph: Phdr, va: nat)
    decreases VaEnd(ph) - va
  {
    va < VaEnd(ph) ==> ChunkReads(f, ph, va) && ChunksRead(f, ph, va + PAGE_SIZE)
  }

  // ---- what is returned --------------------------------------------------------------------

  /** The code for the headers from `i` on, if memory does not run out. */
  function SegmentsVerdict(f: File, eh: Ehdr, i: nat): int
    requires i <= eh.phnum
    decreases eh.phnum - i
  {
    if i == eh.phnum then 0
    else
      match ReadPhdr(f, eh, i)
      case None => -101
      case Some(ph) =>
        if !Loadable(ph) then SegmentsVerdict(f, eh, i + 1)
        else if ph.vaddr < USER_MIN_VA then -102
        else if ph.filesz > ph.memsz then -103
        else if !ChunksRead(f, ph, VaStart(ph)) then -106
        else SegmentsVerdict(f, eh, i + 1)
  }

  function Header(f: File): Option<Ehdr> {
    if Delivers(f, 0, EHDR_SIZE) then Some(ParseEhdr(ReadAt(f, 0, EHDR_SIZE).value)) else None
  }

  /** What elf_load returns if memory does not run out. */
  function Verdict(f: File): int {
    match Header(f)
    case None => -100
    case Some(eh) => if Validate(eh) != 0 then Validate(eh) else SegmentsVerdict(f, eh, 0)
  }

  predicate IsMemoryCode(code: int) {
    code in {-104, -105, -107, -200, -300, -301}
  }

  // ---- the address space -------------------------------------------------------------------

  type Image = map<nat, Shown>

  /** The first `k` pages of a segment. */
  function PagesImage(bytes: seq<byte>, ph: Phdr, k: nat): (r: Image)
    ensures forall n :: n in r <==> FirstPage(ph) <= n < FirstPage(ph) + k
    ensures forall n :: n in r ==> r[n] == Shown(SegmentPage(bytes, ph, n * PAGE_SIZE), Writable(ph))
  {
    if k == 0 then map[]
    else
      var n := FirstPage(ph) + k - 1;
      PagesImage(bytes, ph, k - 1)[n := Shown(SegmentPage(bytes, ph, n * PAGE_SIZE), Writable(ph))]
  }

  function PageNo(va: nat): nat {
    va / PAGE_SIZE
  }

  function FirstPage(ph: Phdr): nat {
    PageNo(VaStart(ph))
  }

  function PageCount(ph: Phdr): nat {
    if VaStart(ph) < VaEnd(ph) then (VaEnd(ph) - VaStart(ph)) / PAGE_SIZE else 0
  }

  function SegmentImage(f: File, eh: Ehdr, i: nat): Image {
    var ph := ReadPhdr(f, eh, i);
    if ph.Some? && Loadable(ph.value) then PagesImage(f.bytes, ph.value, PageCount(ph.value)) else map[]
  }

  /** The first `i` segments; a later one replaces the pages of an earlier one. */
  function SegmentsImage(f: File, eh: Ehdr, i: nat): Image {
    if i == 0 then map[] else SegmentsImage(f, eh, i - 1) + SegmentImage(f, eh, i - 1)
  }

  /** The library image the kernel caches at boot, if there is one. */
  datatype Libc = NoLibc | Libc(image: seq<byte>)

  predicate GoodLibc(l: Libc) {
    l.Libc? ==> 1 <= |l.image| <= MAX_LIBC
  }

  function LibcPages(l: Libc): nat {
    if l.NoLibc? then 0 else (|l.image| + PAGE_SIZE - 1) / PAGE_SIZE
  }

  function LibcPage(image: seq<byte>, k: nat): (b: seq<byte>)
    ensures |b| == PAGE_SIZE
  {
    seq(PAGE_SIZE, j requires 0 <= j < PAGE_SIZE =>
      if k * PAGE_SIZE + j < |image| then image[k * PAGE_SIZE + j] else 0)
  }

  /** The first `k` pages of the library. */
  function LibcImage(l: Libc, k: nat): (r: Image)
    requires k <= LibcPages(l)
    ensures forall n :: n in r <==> LIBC_VA / PAGE_SIZE <= n < LIBC_VA / PAGE_SIZE + k
    ensures forall n :: n in r ==> r[n] == Shown(LibcPage(l.image, n - LIBC_VA / PAGE_SIZE), true)
  {
    if k == 0 then map[]
    else LibcImage(l, k - 1)[LIBC_VA / PAGE_SIZE + k - 1 := Shown(LibcPage(l.image, k - 1), true)]
  }

  /** The first `k` pages of the stack. */
  function StackImage(k: nat): (r: Image)
    ensures forall n :: n in r <==> STACK_LOW / PAGE_SIZE <= n < STACK_LOW / PAGE_SIZE + k
    ensures forall n :: n in r ==> r[n] == Shown(Zeros(PAGE_SIZE), true)
  {
    if k == 0 then map[] else StackImage(k - 1)[STACK_LOW / PAGE_SIZE + k - 1 := Shown(Zeros(PAGE_SIZE), true)]
  }

  /** The whole address space of a loaded program. */
  function FullImage(f: File, eh: Ehdr, l: Libc): Image {
    SegmentsImage(f, eh, eh.phnum) + LibcImage(l, LibcPages(l)) + StackImage(STACK_PAGES)
  }

  // ---- the pages mapped, in order ----------------------------------------------------------

  function Numbers(first: nat, count: nat): (r: seq<nat>)
    ensures |r| == count
  {
    seq(count, i requires 0 <= i < count => first + i)
  }

  /** The page numbers of segment `i`. */
  function SegmentNumbers(f: File, eh: Ehdr, i: nat): seq<nat> {
    var ph := ReadPhdr(f, eh, i);
    if ph.Some? && Loadable(ph.value) then Numbers(FirstPage(ph.value), PageCount(ph.value)) else []
  }

  function SegmentPlan(f: File, eh: Ehdr, i: nat): seq<nat> {
    if i == 0 then [] else SegmentPlan(f, eh, i - 1) + SegmentNumbers(f, eh, i - 1)
  }

  function LibcNumbers(l: Libc): seq<nat> {
    Numbers(LIBC_VA / PAGE_SIZE, LibcPages(l))
  }

  function StackNumbers(): seq<nat> {
    Numbers(STACK_LOW / PAGE_SIZE, STACK_PAGES)
  }

  /** Every page the program claims, in the order of the loading: segments, library, stack. */
  function Plan(f: File, eh: Ehdr, l: Libc): seq<nat> {
    SegmentPlan(f, eh, eh.phnum) + LibcNumbers(l) + StackNumbers()
  }

  /** Enough memory for every page of the program, a page table for each of them, and the directory. */
  predicate EnoughMemory(f: File, eh: Ehdr, l: Libc, pages: nat) {
    pages >= 1 + 2 * |Plan(f, eh, l)|
  }

  /** No page is claimed by two of segments, library and stack. */
  ghost predicate WindowsApart(f: File, eh: Ehdr, l: Libc) {
    Distinct(Plan(f, eh, l))
  }

  /** The segment ends in range, or so near the end of the address space that no page of it is mapped. */
  predicate NoWrappedPage(ph: Phdr) {
    EndsInRange(ph) || VaEnd(ph) <= VaStart(ph)
  }

  /** The files the statements are about: smaller than 4 GiB less a page, and no segment runs round the end of
      the address space into its own first page. */
  predicate InRange(f: File) {
    && |f.bytes| <= 0xFFFF_F000
    && (Header(f).Some? ==>
          forall i :: 0 <= i < Header(f).value.phnum ==>
            var ph := ReadPhdr(f, Header(f).value, i); ph.Some? && Loadable(ph.value) ==> NoWrappedPage(ph.value))
  }

  // ---- the copy, as the code computes it ---------------------------------------------------

  /** The page at `va` is mapped for the segment. */
  predicate MappedAt(ph: Phdr, va: nat) {
    VaStart(ph) <= va < VaEnd(ph) && va % PAGE_SIZE == 0
  }

  function FileEnd(ph: Phdr): uint32 {
    Wrap32(ph.vaddr + ph.filesz)
  }

  predicate CodeOverlaps(ph: Phdr, va: nat) {
    va < FileEnd(ph) && Wrap32(va + PAGE_SIZE) > ph.vaddr
  }

  function CodeCopyEnd(ph: Phdr, va: nat): uint32 {
    if Wrap32(va + PAGE_SIZE) < FileEnd(ph) then Wrap32(va + PAGE_SIZE) else FileEnd(ph)
  }

  /** copy_len. */
  function CodeCopyLength(ph: Phdr, va: nat): uint32 {
    Wrap32(CodeCopyEnd(ph, va) - CopyStart(ph, va))
  }

  /** The read for the page at `va`, if there is one, is into that page. */
  predicate CopyStays(ph: Phdr, va: nat) {
    CodeOverlaps(ph, va) ==> va <= CopyStart(ph, va) && CopyStart(ph, va) - va + CodeCopyLength(ph, va) <= PAGE_SIZE
  }

  lemma MappedBelowTop(ph: Phdr, va: nat)
    requires MappedAt(ph, va)
    ensures Wrap32(va + PAGE_SIZE) == va + PAGE_SIZE && VaStart(ph) <= va && va % PAGE_SIZE == 0
  {
    assert VaEnd(ph) % PAGE_SIZE == 0;
  }

  /** A segment whose end wraps can have no page but its first. */
  lemma OnlyFirstPage(ph: Phdr, va: nat)
    requires MappedAt(ph, va) && !EndsInRange(ph) && ph.memsz != 0
    ensures va == VaStart(ph)
  {
  }

  lemma StartIsBelow(ph: Phdr)
    ensures VaStart(ph) <= ph.vaddr < VaStart(ph) + PAGE_SIZE
  {
  }

  /** For a segment that ends in range the 32-bit arithmetic is the arithmetic of whole numbers. */
  lemma CodeCopyIs(ph: Phdr, va: nat)
    requires ph.filesz <= ph.memsz && EndsInRange(ph) && MappedAt(ph, va)
    ensures CodeOverlaps(ph, va) <==> Overlaps(ph, va)
    ensures Overlaps(ph, va) ==> CodeCopyLength(ph, va) == CopyEnd(ph, va) - CopyStart(ph, va)
  {
    MappedBelowTop(ph, va);
    assert FileEnd(ph) == ph.vaddr + ph.filesz;
    hide MappedAt, VaStart, VaEnd;
    if Overlaps(ph, va) { NoWrap(CopyEnd(ph, va) - CopyStart(ph, va)); }
    hide Wrap32;
  }

  lemma NoWrap(x: int)
    requires 0 <= x < 0x1_0000_0000
    ensures Wrap32(x) == x
  {
  }

  /** Does the end of the file-backed part wrap past the segment's first page. */
  predicate FileEndWraps(ph: Phdr) {
    ph.vaddr + ph.filesz > 0x1_0000_0000 + VaStart(ph)
  }

  lemma PageStays(ph: Phdr, va: nat)
    requires ph.filesz <= ph.memsz && ph.memsz != 0 && !FileEndWraps(ph) && MappedAt(ph, va)
    ensures CopyStays(ph, va)
  {
    MappedBelowTop(ph, va);
    StartIsBelow(ph);
    if !EndsInRange(ph) { OnlyFirstPage(ph, va); }
    FileEndIs(ph);
    hide MappedAt, VaStart, VaEnd, FileEnd;
    if CodeOverlaps(ph, va) {
      assert 0 <= CodeCopyEnd(ph, va) - CopyStart(ph, va) <= PAGE_SIZE;
      NoWrap(CodeCopyEnd(ph, va) - CopyStart(ph, va));
    }
    hide Wrap32;
  }

  lemma FileEndIs(ph: Phdr)
    ensures FileEnd(ph) ==
            if ph.vaddr + ph.filesz < 0x1_0000_0000 then ph.vaddr + ph.filesz else ph.vaddr + ph.filesz - 0x1_0000_0000
  {
  }

  lemma FirstPageLeft(ph: Phdr)
    requires ph.filesz <= ph.memsz && ph.memsz != 0 && FileEndWraps(ph) && VaEnd(ph) > VaStart(ph)
    ensures MappedAt(ph, VaStart(ph)) && !CopyStays(ph, VaStart(ph))
  {
    assert MappedAt(ph, VaStart(ph));
    MappedBelowTop(ph, VaStart(ph));
    StartIsBelow(ph);
    FileEndIs(ph);
    hide MappedAt, VaStart, VaEnd, FileEnd;
  }

  /** Every copy stays in its page exactly when no page is mapped or the end of the file-backed part does not
      wrap past the first one. */
  lemma CopyStaysIff(ph: Phdr)
    requires ph.filesz <= ph.memsz && ph.memsz != 0
    ensures (forall va: nat :: MappedAt(ph, va) ==> CopyStays(ph, va)) <==>
            VaEnd(ph) <= VaStart(ph) || !FileEndWraps(ph)
  {
    if VaEnd(ph) > VaStart(ph) && FileEndWraps(ph) {
      FirstPageLeft(ph);
      hide CopyStays;
    } else {
      hide CopyStays, FileEndWraps;
      forall va: nat | MappedAt(ph, va) ensures CopyStays(ph, va) {
        PageStays(ph, va);
      }
    }
  }

  /** How much fs_read reads of `n` bytes at `off` from a file of `size` bytes: the sum that decides wraps too. */
  function CutToFile(size: uint32, off: uint32, n: uint32): uint32 {
    if off >= size then 0 else if Wrap32(off + n) > size then size - off else n
  }

  /** A segment of 0xFFFFFFF8 bytes at 0x40000010: the loader's checks pass, one page is mapped, and the read
      into it is of 0xFFFFFFF8 bytes, which is not cut to the file either. */
  lemma WrappedSegmentCopy(ph: Phdr, size: uint32)
    requires ph == Phdr(1, EHDR_SIZE + PHDR_SIZE, 0x4000_0010, 0xFFFF_FFF8, 0xFFFF_FFF8, 7)
    requires size > EHDR_SIZE + PHDR_SIZE
    ensures Loadable(ph) && ph.vaddr >= USER_MIN_VA && ph.filesz <= ph.memsz && PageCount(ph) == 1
    ensures MappedAt(ph, USER_MIN_VA) && CodeOverlaps(ph, USER_MIN_VA) && !CopyStays(ph, USER_MIN_VA)
    ensures CodeCopyLength(ph, USER_MIN_VA) == 0xFFFF_FFF8
    ensures CutToFile(size, ph.offset, CodeCopyLength(ph, USER_MIN_VA)) == 0xFFFF_FFF8
  {
    assert VaStart(ph) == USER_MIN_VA && VaEnd(ph) == USER_MIN_VA + PAGE_SIZE;
  }
}
