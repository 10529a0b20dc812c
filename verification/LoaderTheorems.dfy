/** What a process sees in the address space elf_load builds, and that the loader undoes the image builder. */
module LoaderTheorems {
  import opened Bytes
  import opened ElfFormat
  import opened PageSpace
  import opened LoadImage
  import opened Loader

  /** The byte at a user address. */
  function ByteAt(im: Image, a: nat): Option<byte> {
    if PageNo(a) in im && a % PAGE_SIZE < |im[PageNo(a)].bytes| then Some(im[PageNo(a)].bytes[a % PAGE_SIZE]) else None
  }

  predicate MayWrite(im: Image, a: nat) {
    PageNo(a) in im && im[PageNo(a)].writable
  }

  predicate PageIn(ph: Phdr, n: nat) {
    FirstPage(ph) <= n < FirstPage(ph) + PageCount(ph)
  }

  // ---- consequences of a clean verdict -----------------------------------------------------

  lemma {:induction false} VerdictAt(f: File, eh: Ehdr, j: nat, i: nat)
    requires j <= i < eh.phnum && SegmentsVerdict(f, eh, j) == 0
    ensures SegmentsVerdict(f, eh, i) == 0
    decreases i - j
  {
    hide ReadPhdr, Loadable, ChunksRead, VaStart;
    if j < i { VerdictAt(f, eh, j + 1, i); }
  }

  lemma {:induction false} ChunksCover(f: File, ph: Phdr, va: nat, a: nat)
    requires Accepted(ph) && EndsInRange(ph) && |f.bytes| <= 0xFFFF_F000
    requires VaStart(ph) <= va && va % PAGE_SIZE == 0 && OffsetInRange(ph, va) && ChunksRead(f, ph, va)
    requires va <= a && ph.vaddr <= a < ph.vaddr + ph.filesz
    ensures ph.offset + (a - ph.vaddr) < |f.bytes|
    decreases a - va
  {
    ReadsInRange(ph, va, a);
    if a < va + PAGE_SIZE {
      ChunkHolds(f, ph, va, a);
    } else {
      NextOffset(f, ph, va);
      ChunksCover(f, ph, va + PAGE_SIZE, a);
    }
  }

  lemma ChunkHolds(f: File, ph: Phdr, va: nat, a: nat)
    requires PageOf(ph, va) && OffsetInRange(ph, va) && ChunkReads(f, ph, va)
    requires va <= a < va + PAGE_SIZE && ph.vaddr <= a < ph.vaddr + ph.filesz
    ensures ph.offset + (a - ph.vaddr) < |f.bytes|
  {
  }

  /** A page with a file byte on or behind it is a page of the segment. */
  lemma ReadsInRange(ph: Phdr, va: nat, a: nat)
    requires Accepted(ph) && VaStart(ph) <= va && va % PAGE_SIZE == 0 && va <= a && ph.vaddr <= a < ph.vaddr + ph.filesz
    requires EndsInRange(ph)
    ensures PageOf(ph, va)
  {
    SpanCoversIff(ph);
  }

  // ---- which window a page belongs to ------------------------------------------------------

  lemma DistinctParts(a: seq<nat>, b: seq<nat>)
    requires Distinct(a + b)
    ensures Distinct(a) && forall n :: n in a ==> n !in b
  {
    var s := a + b;
    assert forall i :: 0 <= i < |a| ==> s[i] == a[i];
    assert forall i :: 0 <= i < |b| ==> s[|a| + i] == b[i];
  }

  lemma NumbersHold(first: nat, count: nat, n: nat)
    ensures n in Numbers(first, count) <==> first <= n < first + count
  {
    if first <= n < first + count { assert Numbers(first, count)[n - first] == n; }
  }

  /** The pages of a segment image are those of the plan. */
  lemma SegmentNumbersHold(f: File, eh: Ehdr, i: nat, n: nat)
    ensures n in SegmentNumbers(f, eh, i) <==> n in SegmentImage(f, eh, i)
    ensures n in SegmentNumbers(f, eh, i) <==>
            ReadPhdr(f, eh, i).Some? && Loadable(ReadPhdr(f, eh, i).value) && PageIn(ReadPhdr(f, eh, i).value, n)
  {
    hide ReadPhdr, FirstPage, PageCount, Loadable;
    var ph := ReadPhdr(f, eh, i);
    if ph.Some? { NumbersHold(FirstPage(ph.value), PageCount(ph.value), n); }
    hide Numbers;
  }

  lemma {:induction false} PlanHolds(f: File, eh: Ehdr, j: nat, n: nat)
    ensures n in SegmentPlan(f, eh, j) <==> n in SegmentsImage(f, eh, j)
  {
    hide SegmentNumbers, SegmentImage;
    if j > 0 {
      PlanHolds(f, eh, j - 1, n);
      SegmentNumbersHold(f, eh, j - 1, n);
    }
  }

  /** Segment `i` is the last that has page `n`, and neither the library nor the stack has it. */
  ghost predicate LastOn(f: File, eh: Ehdr, l: Libc, i: nat, n: nat) {
    && (forall j :: i < j < eh.phnum && ReadPhdr(f, eh, j).Some? && Loadable(ReadPhdr(f, eh, j).value) ==>
                      !PageIn(ReadPhdr(f, eh, j).value, n))
    && !(0x7_0000 <= n < 0x7_0000 + LibcPages(l)) && !(0x4_00F1 <= n < 0x4_0101)
  }

  lemma {:induction false} SegmentKept(f: File, eh: Ehdr, i: nat, ph: Phdr, n: nat, j: nat)
    requires i < j <= eh.phnum
    requires forall m :: i < m < j && ReadPhdr(f, eh, m).Some? && Loadable(ReadPhdr(f, eh, m).value) ==>
                           !PageIn(ReadPhdr(f, eh, m).value, n)
    requires ReadPhdr(f, eh, i) == Some(ph) && Loadable(ph) && PageIn(ph, n)
    ensures n in SegmentsImage(f, eh, j)
    ensures SegmentsImage(f, eh, j)[n] == Shown(SegmentPage(f.bytes, ph, n * PAGE_SIZE), Writable(ph))
  {
    hide SegmentPage, ReadPhdr, SegmentNumbers, FirstPage, PageCount, Loadable;
    SegmentNumbersHold(f, eh, j - 1, n);
    if j > i + 1 {
      SegmentKept(f, eh, i, ph, n, j - 1);
    } else {
      assert n in SegmentImage(f, eh, i);
    }
  }

  /** The program a successful load of `f` runs. */
  ghost predicate Loads(f: File, eh: Ehdr, l: Libc) {
    Verdict(f) == 0 && Header(f) == Some(eh) && InRange(f) && GoodLibc(l)
  }

  lemma SegmentFacts(f: File, eh: Ehdr, l: Libc, i: nat, ph: Phdr)
    requires Loads(f, eh, l) && i < eh.phnum && ReadPhdr(f, eh, i) == Some(ph) && Loadable(ph)
    ensures Accepted(ph) && ChunksRead(f, ph, VaStart(ph))
  {
    VerdictAt(f, eh, 0, i);
  }

  lemma FileCovers(f: File, ph: Phdr, a: nat)
    requires Accepted(ph) && EndsInRange(ph) && ChunksRead(f, ph, VaStart(ph)) && |f.bytes| <= 0xFFFF_F000
    requires ph.vaddr <= a < ph.vaddr + ph.filesz
    ensures ph.offset + (a - ph.vaddr) < |f.bytes|
  {
    FirstTurn(f, ph, map[], []);
    SpanCoversIff(ph);
    ChunksCover(f, ph, VaStart(ph), a);
  }

  lemma InSegmentPage(bytes: seq<byte>, ph: Phdr, a: nat)
    ensures SegmentPage(bytes, ph, PageNo(a) * PAGE_SIZE)[a % PAGE_SIZE] == SegmentByte(bytes, ph, a)
  {
    assert PageNo(a) * PAGE_SIZE + a % PAGE_SIZE == a;
  }

  lemma OnlySegments(f: File, eh: Ehdr, l: Libc, n: nat)
    requires n in SegmentsImage(f, eh, eh.phnum)
    requires !(0x7_0000 <= n < 0x7_0000 + LibcPages(l)) && !(0x4_00F1 <= n < 0x4_0101)
    ensures n in FullImage(f, eh, l) && FullImage(f, eh, l)[n] == SegmentsImage(f, eh, eh.phnum)[n]
  {
    hide SegmentsImage, LibcPages;
  }

  /** Every byte of the pages a segment touches, if nothing is loaded over them later: the file's byte inside the
      file-backed part, zero around it; and the process may write there exactly when bit 1 of the segment's flags,
      PF_W, is set. */
  lemma SegmentIsSeen(f: File, eh: Ehdr, l: Libc, i: nat, ph: Phdr, a: nat)
    requires Loads(f, eh, l) && i < eh.phnum && ReadPhdr(f, eh, i) == Some(ph) && Loadable(ph)
    requires PageIn(ph, PageNo(a)) && LastOn(f, eh, l, i, PageNo(a))
    ensures ph.vaddr <= a < ph.vaddr + ph.filesz ==> ph.offset + (a - ph.vaddr) < |f.bytes|
    ensures ByteAt(FullImage(f, eh, l), a) ==
            Some(if ph.vaddr <= a < ph.vaddr + ph.filesz then f.bytes[ph.offset + (a - ph.vaddr)] else 0)
    ensures MayWrite(FullImage(f, eh, l), a) <==> ph.flags % 4 in {2, 3}
    ensures a >= 0x4000_0000
  {
    hide Verdict, SegmentsVerdict, SegmentsImage, FullImage, ReadPhdr, SegmentPlan, ChunksRead, SegmentPage, LibcPages;
    SegmentFacts(f, eh, l, i, ph);
    SegmentKept(f, eh, i, ph, PageNo(a), eh.phnum);
    OnlySegments(f, eh, l, PageNo(a));
    InSegmentPage(f.bytes, ph, a);
    PageMeansRange(ph, PageNo(a));
    if ph.vaddr <= a < ph.vaddr + ph.filesz { FileCovers(f, ph, a); }
  }

  /** When no two windows share a page, no segment's page is loaded over. */
  lemma ApartIsLast(f: File, eh: Ehdr, l: Libc, i: nat, ph: Phdr, n: nat)
    requires WindowsApart(f, eh, l) && i < eh.phnum && ReadPhdr(f, eh, i) == Some(ph) && Loadable(ph) && PageIn(ph, n)
    ensures LastOn(f, eh, l, i, n)
  {
    hide SegmentPlan, Distinct, Numbers, ReadPhdr, LibcPages, Loadable, FirstPage, PageCount;
    var a, b := SegmentPlan(f, eh, eh.phnum), LibcNumbers(l);
    DistinctParts(a + b, StackNumbers());
    DistinctParts(a, b);
    SegmentInPlan(f, eh, i, n, eh.phnum);
    SegmentInPlan(f, eh, i, n, i + 1);
    NumbersHold(LIBC_VA / PAGE_SIZE, LibcPages(l), n);
    NumbersHold(STACK_LOW / PAGE_SIZE, STACK_PAGES, n);
    forall j | i < j < eh.phnum && ReadPhdr(f, eh, j).Some? && Loadable(ReadPhdr(f, eh, j).value)
      ensures !PageIn(ReadPhdr(f, eh, j).value, n)
    {
      LaterIsApart(f, eh, i, n, j, eh.phnum);
      SegmentNumbersHold(f, eh, j, n);
    }
  }

  lemma {:induction false} SegmentInPlan(f: File, eh: Ehdr, i: nat, n: nat, k: nat)
    requires i < k && ReadPhdr(f, eh, i).Some? && Loadable(ReadPhdr(f, eh, i).value)
    requires PageIn(ReadPhdr(f, eh, i).value, n)
    ensures n in SegmentPlan(f, eh, k)
  {
    hide SegmentNumbers, ReadPhdr, Loadable, FirstPage, PageCount;
    if k > i + 1 { SegmentInPlan(f, eh, i, n, k - 1); } else { SegmentNumbersHold(f, eh, i, n); }
  }

  lemma {:induction false} LaterIsApart(f: File, eh: Ehdr, i: nat, n: nat, j: nat, k: nat)
    requires i < j < k && Distinct(SegmentPlan(f, eh, k)) && n in SegmentPlan(f, eh, i + 1)
    ensures n !in SegmentNumbers(f, eh, j)
  {
    hide SegmentNumbers, Distinct;
    DistinctParts(SegmentPlan(f, eh, k - 1), SegmentNumbers(f, eh, k - 1));
    if j < k - 1 { LaterIsApart(f, eh, i, n, j, k - 1); } else { PlanGrows(f, eh, n, i + 1, j); }
  }

  lemma {:induction false} PlanGrows(f: File, eh: Ehdr, n: nat, i: nat, j: nat)
    requires i <= j && n in SegmentPlan(f, eh, i)
    ensures n in SegmentPlan(f, eh, j)
  {
    hide SegmentNumbers;
    if i < j { PlanGrows(f, eh, n, i, j - 1); }
  }

  lemma PageMeansRange(ph: Phdr, n: nat)
    requires NoWrappedPage(ph) && PageIn(ph, n)
    ensures EndsInRange(ph)
  {
  }

  /** All of a segment is on pages that are mapped for it exactly when vaddr + memsz <= 0xFFFFF000. */
  lemma SegmentIsMappedIff(f: File, eh: Ehdr, l: Libc, i: nat, ph: Phdr)
    requires Loads(f, eh, l) && i < eh.phnum && ReadPhdr(f, eh, i) == Some(ph) && Loadable(ph)
    ensures ph.vaddr + ph.memsz <= 0xFFFF_F000 <==>
            forall a :: ph.vaddr <= a < ph.vaddr + ph.memsz ==> PageIn(ph, PageNo(a))
  {
    hide Verdict, SegmentsVerdict, SegmentsImage, FullImage, ReadPhdr, SegmentPlan, ChunksRead, PageNo, InRange;
    SegmentFacts(f, eh, l, i, ph);
    if EndsInRange(ph) {
      forall a | ph.vaddr <= a < ph.vaddr + ph.memsz ensures PageIn(ph, PageNo(a)) {
        SpanHasPage(ph, a);
      }
    } else {
      assert !PageIn(ph, PageNo(ph.vaddr));
    }
  }

  /** Its pages are those with a byte of it, and there are none when it ends later than that. */
  lemma SegmentPagesIff(f: File, eh: Ehdr, l: Libc, i: nat, ph: Phdr, n: nat)
    requires Loads(f, eh, l) && i < eh.phnum && ReadPhdr(f, eh, i) == Some(ph) && Loadable(ph)
    ensures PageIn(ph, n) <==>
            ph.vaddr + ph.memsz <= 0xFFFF_F000 && n * 4096 < ph.vaddr + ph.memsz && ph.vaddr < n * 4096 + 4096
  {
    hide Verdict, SegmentsVerdict, SegmentsImage, FullImage, ReadPhdr, ChunksRead, PageIn, InRange, EndsInRange;
    SegmentFacts(f, eh, l, i, ph);
    PagesAre(ph, n);
  }

  lemma PagesAre(ph: Phdr, n: nat)
    requires ph.memsz != 0 && NoWrappedPage(ph)
    ensures PageIn(ph, n) <==>
            ph.vaddr + ph.memsz <= 0xFFFF_F000 && n * 4096 < ph.vaddr + ph.memsz && ph.vaddr < n * 4096 + 4096
  {
    if EndsInRange(ph) {
      SpanCoversIff(ph);
      hide AlignUp;
    }
  }

  lemma SpanHasPage(ph: Phdr, a: nat)
    requires ph.memsz != 0 && EndsInRange(ph) && ph.vaddr <= a < ph.vaddr + ph.memsz
    ensures PageIn(ph, PageNo(a))
  {
    SpanCoversIff(ph);
    hide AlignUp;
  }

  /** The library window, from 0x70000000, shows the cached image, padded with zeros to a whole page; the process
      may write there. */
  lemma LibcIsSeen(f: File, eh: Ehdr, l: Libc, a: nat)
    requires GoodLibc(l) && l.Libc? && 0x7000_0000 <= a < 0x7000_0000 + (|l.image| + 4095) / 4096 * 4096
    ensures ByteAt(FullImage(f, eh, l), a) ==
            Some(if a - 0x7000_0000 < |l.image| then l.image[a - 0x7000_0000] else 0)
    ensures MayWrite(FullImage(f, eh, l), a)
  {
    hide SegmentsImage, LibcPage;
    var n, k := PageNo(a), PageNo(a) - LIBC_VA / PAGE_SIZE;
    assert n in LibcImage(l, LibcPages(l)) && n !in StackImage(STACK_PAGES);
    assert FullImage(f, eh, l)[n] == Shown(LibcPage(l.image, k), true);
    LibcByte(l.image, k, a % PAGE_SIZE);
  }

  lemma LibcByte(image: seq<byte>, k: nat, j: nat)
    requires j < PAGE_SIZE
    ensures LibcPage(image, k)[j] == if k * PAGE_SIZE + j < |image| then image[k * PAGE_SIZE + j] else 0
  {
  }

  /** The stack: 64 KiB of zeros that the process may write, up to 0x40101000. */
  lemma StackIsSeen(f: File, eh: Ehdr, l: Libc, a: nat)
    requires 0x400F_1000 <= a < 0x4010_1000
    ensures ByteAt(FullImage(f, eh, l), a) == Some(0) && MayWrite(FullImage(f, eh, l), a)
  {
    StackPageShown(f, eh, l, PageNo(a));
    hide FullImage;
  }

  lemma StackPageShown(f: File, eh: Ehdr, l: Libc, n: nat)
    requires 0x4_00F1 <= n < 0x4_0101
    ensures n in FullImage(f, eh, l) && FullImage(f, eh, l)[n] == Shown(Zeros(PAGE_SIZE), true)
  {
    hide SegmentsImage, LibcPages;
    assert n in StackImage(STACK_PAGES);
  }

  lemma {:induction false} SegmentOf(f: File, eh: Ehdr, j: nat, n: nat) returns (i: nat)
    requires n in SegmentsImage(f, eh, j)
    ensures i < j && ReadPhdr(f, eh, i).Some? && Loadable(ReadPhdr(f, eh, i).value) &&
            PageIn(ReadPhdr(f, eh, i).value, n)
  {
    if n in SegmentImage(f, eh, j - 1) { i := j - 1; } else { i := SegmentOf(f, eh, j - 1, n); }
  }

  lemma {:induction false} SegmentShown(f: File, eh: Ehdr, i: nat, n: nat, j: nat)
    requires i < j && ReadPhdr(f, eh, i).Some? && Loadable(ReadPhdr(f, eh, i).value)
    requires PageIn(ReadPhdr(f, eh, i).value, n)
    ensures n in SegmentsImage(f, eh, j)
  {
    hide SegmentImage, ReadPhdr, PageIn, Loadable;
    if j > i + 1 { SegmentShown(f, eh, i, n, j - 1); } else { SegmentNumbersHold(f, eh, i, n); }
  }

  /** A process has exactly the pages of its segments, of the library and of the stack. */
  lemma MappedIff(f: File, eh: Ehdr, l: Libc, n: nat)
    ensures n in FullImage(f, eh, l) <==>
            || (exists i :: 0 <= i < eh.phnum && ReadPhdr(f, eh, i).Some? && Loadable(ReadPhdr(f, eh, i).value) &&
                            PageIn(ReadPhdr(f, eh, i).value, n))
            || 0x7_0000 <= n < 0x7_0000 + LibcPages(l)
            || 0x4_00F1 <= n < 0x4_0101
  {
    hide SegmentsImage, LibcPages, ReadPhdr, PageIn, Loadable;
    if n in SegmentsImage(f, eh, eh.phnum) { var i := SegmentOf(f, eh, eh.phnum, n); }
    forall i | 0 <= i < eh.phnum && ReadPhdr(f, eh, i).Some? && Loadable(ReadPhdr(f, eh, i).value) &&
               PageIn(ReadPhdr(f, eh, i).value, n)
      ensures n in SegmentsImage(f, eh, eh.phnum)
    {
      SegmentShown(f, eh, i, n, eh.phnum);
    }
  }

  // ---- mirrored tables ---------------------------------------------------------------------

  /** No page of the window at `first` lies in a mirrored table. */
  predicate ClearOf(first: nat, count: nat, mirrored: set<nat>) {
    forall t :: t in mirrored ==>
                  count == 0 || first + count <= t * TABLE_ENTRIES || (t + 1) * TABLE_ENTRIES <= first
  }

  lemma ClearIff(first: nat, count: nat, mirrored: set<nat>)
    ensures ClearOf(first, count, mirrored) <==> Unmirrored(Numbers(first, count), mirrored)
  {
    if ClearOf(first, count, mirrored) {
      forall n | n in Numbers(first, count) ensures TableOf(n) !in mirrored {
        NumbersHold(first, count, n);
      }
    } else {
      var t :| t in mirrored && count != 0 && first + count > t * TABLE_ENTRIES && (t + 1) * TABLE_ENTRIES > first;
      var n := if first >= t * TABLE_ENTRIES then first else t * TABLE_ENTRIES;
      NumbersHold(first, count, n);
      assert TableOf(n) == t;
    }
  }

  lemma UnmirroredParts(a: seq<nat>, b: seq<nat>, mirrored: set<nat>)
    ensures Unmirrored(a + b, mirrored) <==> Unmirrored(a, mirrored) && Unmirrored(b, mirrored)
  {
    hide TableOf;
    assert forall n :: n in a + b <==> n in a || n in b;
  }

  /** A check on one program header. */
  predicate HeaderClear(f: File, eh: Ehdr, i: nat, mirrored: set<nat>) {
    var ph := ReadPhdr(f, eh, i);
    ph.Some? && Loadable(ph.value) ==> ClearOf(FirstPage(ph.value), PageCount(ph.value), mirrored)
  }

  lemma HeaderClearIff(f: File, eh: Ehdr, i: nat, mirrored: set<nat>)
    ensures HeaderClear(f, eh, i, mirrored) <==> Unmirrored(SegmentNumbers(f, eh, i), mirrored)
  {
    NothingMirrored(mirrored);
    var ph := ReadPhdr(f, eh, i);
    hide Unmirrored, ReadPhdr, Loadable, FirstPage, PageCount, ClearOf, Numbers;
    if ph.Some? { ClearIff(FirstPage(ph.value), PageCount(ph.value), mirrored); }
  }

  lemma {:induction false} SegmentsClearIff(f: File, eh: Ehdr, j: nat, mirrored: set<nat>)
    ensures Unmirrored(SegmentPlan(f, eh, j), mirrored) <==> forall i :: 0 <= i < j ==> HeaderClear(f, eh, i, mirrored)
  {
    hide Unmirrored, HeaderClear, SegmentNumbers;
    if j == 0 {
      NothingMirrored(mirrored);
    } else {
      SegmentsClearIff(f, eh, j - 1, mirrored);
      UnmirroredParts(SegmentPlan(f, eh, j - 1), SegmentNumbers(f, eh, j - 1), mirrored);
      HeaderClearIff(f, eh, j - 1, mirrored);
    }
  }

  lemma NothingMirrored(mirrored: set<nat>)
    ensures Unmirrored([], mirrored)
  {
  }

  /** Whether the load leaves the kernel's tables alone can be read off the program headers and two constants. */
  lemma UnmirroredIff(f: File, eh: Ehdr, l: Libc, mirrored: set<nat>)
    ensures Unmirrored(Plan(f, eh, l), mirrored) <==>
            && (forall i :: 0 <= i < eh.phnum ==> HeaderClear(f, eh, i, mirrored))
            && ClearOf(LIBC_VA / PAGE_SIZE, LibcPages(l), mirrored)
            && ClearOf(STACK_LOW / PAGE_SIZE, STACK_PAGES, mirrored)
  {
    hide Unmirrored, ClearOf, SegmentPlan, HeaderClear, Numbers, LibcPages;
    SegmentsClearIff(f, eh, eh.phnum, mirrored);
    UnmirroredParts(SegmentPlan(f, eh, eh.phnum) + LibcNumbers(l), StackNumbers(), mirrored);
    UnmirroredParts(SegmentPlan(f, eh, eh.phnum), LibcNumbers(l), mirrored);
    ClearIff(LIBC_VA / PAGE_SIZE, LibcPages(l), mirrored);
    ClearIff(STACK_LOW / PAGE_SIZE, STACK_PAGES, mirrored);
  }

  // ---- the builder's files -----------------------------------------------------------------

  const ENTRY := 0x4000_0000

  lemma ChunkOfWholeFile(f: File, ph: Phdr, va: nat)
    requires f.bad == {} && PageOf(ph, va) && ph.offset + ph.filesz <= |f.bytes| <= 0xFFFF_F000
    ensures ChunkReads(f, ph, va)
  {
  }

  lemma {:induction false} WholeFileReads(f: File, ph: Phdr, va: nat)
    requires f.bad == {} && Accepted(ph) && ph.offset + ph.filesz <= |f.bytes| <= 0xFFFF_F000
    requires VaStart(ph) <= va && va % PAGE_SIZE == 0
    ensures ChunksRead(f, ph, va)
    decreases VaEnd(ph) - va
  {
    hide ChunkReads, VaStart, EndsInRange;
    if va < VaEnd(ph) {
      ChunkOfWholeFile(f, ph, va);
      WholeFileReads(f, ph, va + PAGE_SIZE);
    }
  }

  /** A flat binary wrapped by make_elf to run at `va`, in a file that can be read. */
  ghost predicate Built(f: File, code: seq<byte>, va: uint32) {
    && 1 <= |code| && EHDR_SIZE + PHDR_SIZE + |code| <= 0xFFFF_F000 && USER_MIN_VA <= va
    && NoWrappedPage(BuiltPhdr(va, |code|)) && f == File(MakeElf(code, va), {})
  }

  function BuiltEhdr(va: uint32): Ehdr {
    Ehdr(Ident(), 2, 3, va, EHDR_SIZE, PHDR_SIZE, 1)
  }

  function BuiltPhdr(va: uint32, n: uint32): Phdr {
    Phdr(1, EHDR_SIZE + PHDR_SIZE, va, n, n, 7)
  }

  lemma BuiltLayout(f: File, code: seq<byte>, va: uint32)
    requires Built(f, code, va)
    ensures |f.bytes| == EHDR_SIZE + PHDR_SIZE + |code| && f.bytes[EHDR_SIZE + PHDR_SIZE..] == code
    ensures f.bytes[0..EHDR_SIZE] == EhdrBytes(va)
    ensures f.bytes[EHDR_SIZE..EHDR_SIZE + PHDR_SIZE] == PhdrBytes(va, |code|)
  {
    EhdrParses(va);
    PhdrParses(va, |code|);
    hide EhdrBytes, PhdrBytes, ParseEhdr, ParsePhdr, NoWrappedPage;
    Peel(f.bytes, 0, EhdrBytes(va), PhdrBytes(va, |code|) + code);
    Peel(f.bytes, EHDR_SIZE, PhdrBytes(va, |code|), code);
  }

  lemma GoodRead(f: File, off: nat, n: nat)
    requires f.bad == {} && 0 < n && off + n <= |f.bytes|
    ensures Delivers(f, off, n) && ReadAt(f, off, n) == Some(f.bytes[off..off + n])
  {
  }

  lemma BuiltHeaders(f: File, code: seq<byte>, va: uint32)
    requires Built(f, code, va)
    ensures Header(f) == Some(BuiltEhdr(va))
    ensures ReadPhdr(f, BuiltEhdr(va), 0) == Some(BuiltPhdr(va, |code|))
    ensures |f.bytes| == EHDR_SIZE + PHDR_SIZE + |code|
  {
    hide MakeElf, EhdrBytes, PhdrBytes, ParseEhdr, ParsePhdr, ReadAt, Delivers, Ident, NoWrappedPage;
    BuiltLayout(f, code, va);
    EhdrParses(va);
    PhdrParses(va, |code|);
    GoodRead(f, 0, EHDR_SIZE);
    GoodRead(f, EHDR_SIZE, PHDR_SIZE);
  }

  lemma OneSegmentVerdict(f: File, eh: Ehdr, ph: Phdr)
    requires eh.phnum == 1 && ReadPhdr(f, eh, 0) == Some(ph) && Accepted(ph) && ChunksRead(f, ph, VaStart(ph))
    ensures SegmentsVerdict(f, eh, 0) == 0
  {
    hide ReadPhdr, ChunksRead, VaStart, NoWrappedPage;
    assert SegmentsVerdict(f, eh, 1) == 0;
  }

  lemma OneSegmentPlan(f: File, eh: Ehdr, ph: Phdr)
    requires eh.phnum == 1 && ReadPhdr(f, eh, 0) == Some(ph) && Loadable(ph)
    ensures SegmentPlan(f, eh, 1) == Numbers(FirstPage(ph), PageCount(ph))
  {
    hide ReadPhdr, FirstPage, PageCount, Numbers;
    assert SegmentPlan(f, eh, 0) == [];
  }

  lemma BuiltAccepted(va: uint32, n: uint32)
    requires 1 <= n && USER_MIN_VA <= va && NoWrappedPage(BuiltPhdr(va, n))
    ensures Accepted(BuiltPhdr(va, n)) && Validate(BuiltEhdr(va)) == 0
  {
    hide NoWrappedPage;
  }

  lemma BuiltVerdict(f: File, code: seq<byte>, va: uint32)
    requires Built(f, code, va)
    ensures Verdict(f) == 0 && InRange(f)
  {
    hide Header, ReadPhdr, MakeElf, VaStart, VaEnd, ChunksRead, SegmentsVerdict, Validate, NoWrappedPage, Loadable;
    BuiltHeaders(f, code, va);
    BuiltAccepted(va, |code|);
    var ph := BuiltPhdr(va, |code|);
    VaStartAligned(ph);
    WholeFileReads(f, ph, VaStart(ph));
    OneSegmentVerdict(f, BuiltEhdr(va), ph);
  }

  lemma VaStartAligned(ph: Phdr)
    ensures VaStart(ph) % PAGE_SIZE == 0
  {
  }

  /** A segment between the stack and the library window, above both, or below the stack. */
  predicate BetweenWindows(first: nat, end: nat) {
    || end <= STACK_LOW / PAGE_SIZE
    || (STACK_LOW / PAGE_SIZE + STACK_PAGES <= first && end <= LIBC_VA / PAGE_SIZE)
    || LIBC_VA / PAGE_SIZE + 256 <= first
  }

  lemma BuiltApart(f: File, code: seq<byte>, va: uint32, l: Libc)
    requires Built(f, code, va) && GoodLibc(l)
    requires var ph := BuiltPhdr(va, |code|); BetweenWindows(FirstPage(ph), FirstPage(ph) + PageCount(ph))
    ensures WindowsApart(f, BuiltEhdr(va), l)
  {
    hide Header, ReadPhdr, MakeElf, FirstPage, PageCount, SegmentPlan, Ident, NoWrappedPage, Loadable, Distinct;
    BuiltHeaders(f, code, va);
    BuiltAccepted(va, |code|);
    var ph := BuiltPhdr(va, |code|);
    OneSegmentPlan(f, BuiltEhdr(va), ph);
    ThreeWindows(FirstPage(ph), PageCount(ph), l);
  }

  lemma ThreeWindows(first: nat, count: nat, l: Libc)
    requires GoodLibc(l) && BetweenWindows(first, first + count)
    ensures Distinct(Numbers(first, count) + LibcNumbers(l) + StackNumbers())
  {
    assert LibcPages(l) <= 256;
    hide LibcPages;
    var a, b, c := Numbers(first, count), LibcNumbers(l), StackNumbers();
    assert |b| == LibcPages(l);
    var s := a + b + c;
    assert forall i :: 0 <= i < |a| ==> s[i] == first + i;
    assert forall i :: |a| <= i < |a| + |b| ==> s[i] == LIBC_VA / PAGE_SIZE + (i - |a|);
    assert forall i :: |a| + |b| <= i < |s| ==> s[i] == STACK_LOW / PAGE_SIZE + (i - |a| - |b|);
  }

  lemma DefaultPages(n: uint32)
    requires 1 <= n && ENTRY + n <= STACK_LOW
    ensures var ph := BuiltPhdr(ENTRY, n);
            EndsInRange(ph) && BetweenWindows(FirstPage(ph), FirstPage(ph) + PageCount(ph))
  {
    SpanCoversIff(BuiltPhdr(ENTRY, n));
  }

  /** The loader undoes the builder: a flat binary wrapped by make_elf, not empty, for any address from which
      it does not run into the end of the address space or another window, loads, starts there, and lies there
      byte for byte. */
  lemma LoadedAt(f: File, code: seq<byte>, va: uint32, l: Libc, i: nat)
    requires Built(f, code, va) && GoodLibc(l) && i < |code| && EndsInRange(BuiltPhdr(va, |code|))
    requires WindowsApart(f, BuiltEhdr(va), l)
    ensures InRange(f) && Verdict(f) == 0 && Header(f) == Some(BuiltEhdr(va)) && BuiltEhdr(va).entry == va
    ensures ByteAt(FullImage(f, BuiltEhdr(va), l), va + i) == Some(code[i])
  {
    hide MakeElf, Header, Verdict, InRange, FullImage, ReadPhdr, WindowsApart, ByteAt, ParseEhdr, ParsePhdr,
         EhdrBytes, PhdrBytes, EndsInRange, NoWrappedPage, PageIn, PageNo;
    BuiltHeaders(f, code, va);
    BuiltVerdict(f, code, va);
    BuiltLayout(f, code, va);
    var ph := BuiltPhdr(va, |code|);
    SpanHasPage(ph, va + i);
    ApartIsLast(f, BuiltEhdr(va), l, 0, ph, PageNo(va + i));
    SegmentIsSeen(f, BuiltEhdr(va), l, 0, ph, va + i);
    assert f.bytes[EHDR_SIZE + PHDR_SIZE + i] == f.bytes[EHDR_SIZE + PHDR_SIZE..][i];
  }

  /** At the builder's own address, 0x40000000, that is every binary that ends below the stack window. */
  lemma LoaderUndoesBuilder(f: File, code: seq<byte>, l: Libc, i: nat)
    requires 1 <= |code| && ENTRY + |code| <= STACK_LOW && f == File(MakeElf(code, ENTRY), {}) && GoodLibc(l) &&
             i < |code|
    ensures InRange(f) && Verdict(f) == 0 && Header(f) == Some(BuiltEhdr(ENTRY)) && BuiltEhdr(ENTRY).entry == ENTRY
    ensures WindowsApart(f, BuiltEhdr(ENTRY), l)
    ensures ByteAt(FullImage(f, BuiltEhdr(ENTRY), l), ENTRY + i) == Some(code[i])
  {
    hide MakeElf, Header, Verdict, InRange, FullImage, WindowsApart, ByteAt, FirstPage, PageCount;
    DefaultPages(|code|);
    assert Built(f, code, ENTRY);
    BuiltApart(f, code, ENTRY, l);
    LoadedAt(f, code, ENTRY, l, i);
  }

  // ---- where the code falls short ----------------------------------------------------------

  const TOP := 0xFFFF_E000

  /** A binary of 6 KiB for 0xFFFFE000 ends near 4 GiB: it loads without complaint, and none of it is there. */
  lemma TopSegmentIsMissing(f: File, code: seq<byte>, l: Libc)
    requires |code| == 0x1800 && f == File(MakeElf(code, TOP), {}) && GoodLibc(l)
    ensures InRange(f) && Verdict(f) == 0 && Header(f) == Some(BuiltEhdr(TOP)) && WindowsApart(f, BuiltEhdr(TOP), l)
    ensures ByteAt(FullImage(f, BuiltEhdr(TOP), l), TOP) == None
  {
    hide MakeElf, Header, Verdict, InRange, WindowsApart, ReadPhdr, SegmentsImage;
    var ph := BuiltPhdr(TOP, 0x1800);
    assert !EndsInRange(ph) && VaEnd(ph) == 0 && PageCount(ph) == 0;
    assert Built(f, code, TOP);
    BuiltHeaders(f, code, TOP);
    BuiltVerdict(f, code, TOP);
    BuiltApart(f, code, TOP, l);
    OneSegmentPlan(f, BuiltEhdr(TOP), ph);
    PlanHolds(f, BuiltEhdr(TOP), 1, PageNo(TOP));
  }

  const LAPIC := 0xFEE0_0000
  const LAPIC_TABLE := 1019

  /** A binary for 0xFEE00000, where the kernel reaches the interrupt controller, loads too, and overwrites the
      kernel's own entry: the kernel's tables are not as they were, and had the load failed behind it, tearing
      down would have freed one of them. */
  lemma LapicSegmentIsMirrored(f: File, code: seq<byte>, l: Libc, mirrored: set<nat>)
    requires 1 <= |code| <= PAGE_SIZE && f == File(MakeElf(code, LAPIC), {}) && GoodLibc(l) && LAPIC_TABLE in mirrored
    ensures InRange(f) && Verdict(f) == 0 && Header(f) == Some(BuiltEhdr(LAPIC)) && WindowsApart(f, BuiltEhdr(LAPIC), l)
    ensures Plan(f, BuiltEhdr(LAPIC), l)[..1] == [PageNo(LAPIC)]
    ensures !Unmirrored([PageNo(LAPIC)], mirrored) && !Unmirrored(Plan(f, BuiltEhdr(LAPIC), l), mirrored)
  {
    hide MakeElf, Header, Verdict, InRange, WindowsApart, ReadPhdr;
    var ph := BuiltPhdr(LAPIC, |code|);
    SpanCoversIff(ph);
    assert FirstPage(ph) == PageNo(LAPIC) && PageCount(ph) == 1;
    assert Built(f, code, LAPIC);
    BuiltHeaders(f, code, LAPIC);
    BuiltVerdict(f, code, LAPIC);
    BuiltApart(f, code, LAPIC, l);
    OneSegmentPlan(f, BuiltEhdr(LAPIC), ph);
    assert Plan(f, BuiltEhdr(LAPIC), l)[0] == PageNo(LAPIC);
    assert TableOf(PageNo(LAPIC)) == LAPIC_TABLE;
    assert PageNo(LAPIC) in [PageNo(LAPIC)];
  }
}
