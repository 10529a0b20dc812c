/** elf_load and dyld_map_libc (kernel/elf.c, kernel/dyld.c): on success the address space is FullImage, on
    failure every page is back. */
module Loader {
  import opened Bytes
  import opened ElfFormat
  import opened PageSpace
  import opened LoadImage

  datatype LoadResult = LoadResult(entry: uint32, userEsp: uint32, stackPage: Frame, stackSize: nat)

  function Seen(m: Memory): Image
    reads m
  {
    View(m.dir, m.kernel, m.ram)
  }

  /** Page number `n` is mapped to the physical page `f`. */
  predicate PageAt(m: Memory, n: nat, f: Frame, writable: bool)
    reads m
  {
    Maps(m.dir, m.kernel, n) && EntryOf(m.dir, m.kernel, n) == Pte(f, writable, true)
  }

  /** `page` was the lowest free page, and is not free any more. */
  ghost predicate TakenLowest(was: set<Frame>, now: set<Frame>, page: Frame) {
    page in was && now <= was - {page} && forall p :: p in was ==> page <= p
  }

  /** A fresh page at page number `n`: 0, or -1 when there is none, or -2 when it cannot be mapped. */
  method MapFresh(m: Memory, n: nat, writable: bool, content: seq<byte>, ghost all: set<Frame>)
    returns (code: int, page: Frame)
    requires m.Accounts(all, {}) && FIRST_USER_TABLE <= TableOf(n) < DIRECTORY_ENTRIES
    modifies m
    ensures m.Accounts(all, {}) && code in {0, -1, -2}
    ensures code == -1 <==> Pages(old(m.free)) == 0
    ensures code == -2 <==> Pages(old(m.free)) == 1 && !old(HasTable(m.dir, m.kernel, TableOf(n)))
    ensures code != 0 ==> m.free == old(m.free)
    ensures code == 0 ==> PageAt(m, n, page, writable)
    ensures code == 0 ==> page in m.ram && Seen(m) == old(Seen(m))[n := Shown(content, writable)]
    ensures m.trace == if code == 0 then old(m.trace) + [n] else old(m.trace)
    ensures if code == 0 then Pages(m.free) >= Pages(old(m.free)) - 2 else Pages(old(m.free)) < 2
    ensures code == 0 ==> SameBut(old(m.dir), old(m.kernel), m.dir, m.kernel, n)
    ensures code == 0 ==> HasTable(m.dir, m.kernel, TableOf(n)) && TakenLowest(old(m.free), m.free, page)
    ensures code == 0 && m.unbroken && old(HasTable(m.dir, m.kernel, TableOf(n))) ==> m.free == {} || page + 1 in m.free
  {
    hide Pages, Owns, Shaped, View, Traced, KernelReady, TableOf, Maps, EntryOf, OneRun, SameBut, HasTable, Zeros;
    assert Tracked(m.free, m.total);
    var p := m.AllocPage();
    if p.None? { return -1, 0; }
    page := p.value;
    if m.unbroken { RunGoesOn(old(m.free), page); }
    ViewFrame(m.dir, m.kernel, m.owner, m.ram, page, content);
    m.ram := m.ram[page := content];
    ghost var rest := m.free;
    var ok := m.MapIn(n, page, writable, all);
    if !ok {
      NoPages(rest);
      m.FreePage(page);
      assert m.free == {page};
      OnePageRun(page);
      return -2, page;
    }
    code := 0;
  }

  lemma OnePageRun(p: Frame)
    ensures OneRun({p})
  {
  }

  // ---- one page of a segment ---------------------------------------------------------------

  /** The segment is one the loader accepts, and `va` is the address of one of its pages. */
  predicate PageOf(ph: Phdr, va: nat) {
    && Loadable(ph) && USER_MIN_VA <= ph.vaddr && ph.filesz <= ph.memsz && EndsInRange(ph)
    && VaStart(ph) <= va < VaEnd(ph) && va % PAGE_SIZE == 0
  }

  /** The file offset read for the page at `va` is a 32-bit number. */
  predicate OffsetInRange(ph: Phdr, va: nat) {
    Overlaps(ph, va) ==> ph.offset + (CopyStart(ph, va) - ph.vaddr) < 0x1_0000_0000
  }

  /** If the read for one page delivers, the next page's file offset does not wrap either. */
  lemma NextOffset(f: File, ph: Phdr, va: nat)
    requires PageOf(ph, va) && OffsetInRange(ph, va) && ChunkReads(f, ph, va) && |f.bytes| <= 0xFFFF_F000
    ensures OffsetInRange(ph, va + PAGE_SIZE) && va < va + PAGE_SIZE
  {
  }

  /** `b` with `data` copied in at offset `o`. */
  function Patched(b: seq<byte>, o: nat, data: seq<byte>): (r: seq<byte>)
    requires o + |data| <= |b|
    ensures |r| == |b|
    ensures forall k {:trigger r[k]} :: 0 <= k < |b| ==> r[k] == if o <= k < o + |data| then data[k - o] else b[k]
  {
    b[..o] + data + b[o + |data|..]
  }

  /** The file bytes the page at `va` needs, and where in the page they go. */
  function ChunkOffset(ph: Phdr, va: nat): uint32
    requires PageOf(ph, va)
  {
    Wrap32(ph.offset + (CopyStart(ph, va) - ph.vaddr))
  }

  function ChunkLength(ph: Phdr, va: nat): nat
    requires PageOf(ph, va) && Overlaps(ph, va)
  {
    CopyEnd(ph, va) - CopyStart(ph, va)
  }

  lemma ChunkShape(ph: Phdr, va: nat)
    requires PageOf(ph, va) && Overlaps(ph, va)
    ensures va <= CopyStart(ph, va) && CopyStart(ph, va) - va + ChunkLength(ph, va) <= PAGE_SIZE
  {
  }

  lemma ChunkBytes(f: File, ph: Phdr, va: nat, data: seq<byte>, k: nat)
    requires PageOf(ph, va) && OffsetInRange(ph, va) && Overlaps(ph, va) && k < PAGE_SIZE
    requires ReadAt(f, ChunkOffset(ph, va), ChunkLength(ph, va)) == Some(data) && |data| == ChunkLength(ph, va)
    ensures var o := CopyStart(ph, va) - va;
            SegmentByte(f.bytes, ph, va + k) == if o <= k < o + |data| then data[k - o] else 0
  {
  }

  /** Zeros, with the bytes of a delivered read copied in, are the page the segment describes. */
  lemma CopyMakesPage(f: File, ph: Phdr, va: nat, data: seq<byte>)
    requires PageOf(ph, va) && OffsetInRange(ph, va) && Overlaps(ph, va)
    requires ReadAt(f, ChunkOffset(ph, va), ChunkLength(ph, va)) == Some(data) && |data| == ChunkLength(ph, va)
    ensures 0 <= CopyStart(ph, va) - va && CopyStart(ph, va) - va + |data| <= PAGE_SIZE
    ensures Patched(Zeros(PAGE_SIZE), CopyStart(ph, va) - va, data) == SegmentPage(f.bytes, ph, va)
  {
    ChunkShape(ph, va);
    var p := Patched(Zeros(PAGE_SIZE), CopyStart(ph, va) - va, data);
    forall k | 0 <= k < PAGE_SIZE ensures p[k] == SegmentPage(f.bytes, ph, va)[k] {
      ChunkBytes(f, ph, va, data, k);
    }
  }

  lemma ZerosArePage(f: File, ph: Phdr, va: nat)
    requires PageOf(ph, va) && !Overlaps(ph, va)
    ensures SegmentPage(f.bytes, ph, va) == Zeros(PAGE_SIZE)
  {
    forall k | 0 <= k < PAGE_SIZE ensures SegmentPage(f.bytes, ph, va)[k] == 0 {
      assert SegmentByte(f.bytes, ph, va + k) == 0;
    }
  }

  /** Copy the file-backed part of the page at `va` into its physical page. */
  method FillPage(m: Memory, f: File, ph: Phdr, va: nat, page: Frame, ghost all: set<Frame>) returns (ok: bool)
    requires m.Accounts(all, {}) && PageOf(ph, va) && OffsetInRange(ph, va)
    requires PageAt(m, PageNo(va), page, Writable(ph)) && page in m.ram &&
             Seen(m)[PageNo(va)] == Shown(Zeros(PAGE_SIZE), Writable(ph))
    modifies m`ram
    ensures m.Accounts(all, {}) && (ok <==> ChunkReads(f, ph, va))
    ensures ok ==> Seen(m) == old(Seen(m))[PageNo(va) := Shown(SegmentPage(f.bytes, ph, va), Writable(ph))]
  {
    hide Owns, Shaped, Traced, KernelReady, TableOf, Partition;
    if !Overlaps(ph, va) {
      ZerosArePage(f, ph, va);
      return true;
    }
    var rd := ReadAt(f, ChunkOffset(ph, va), ChunkLength(ph, va));
    if rd.None? || |rd.value| != ChunkLength(ph, va) {
      return false;
    }
    CopyMakesPage(f, ph, va, rd.value);
    ViewWrite(m.dir, m.kernel, m.owner, m.ram, PageNo(va), SegmentPage(f.bytes, ph, va));
    m.ram := m.ram[page := Patched(m.ram[page], CopyStart(ph, va) - va, rd.value)];
    ok := true;
  }

  /** The address space was torn down. Every page is free again exactly if none had been mapped twice and none
      in a mirrored table, and then none was freed twice; the kernel's tables are as they were exactly if none
      had been mapped in a mirrored table. */
  ghost predicate TornDown(m: Memory, all: set<Frame>)
    reads m
  {
    && (m.free == all <==> Clean(m.trace, m.boot.tables.Keys))
    && (m.kernel == m.boot <==> Unmirrored(m.trace, m.boot.tables.Keys))
    && (Clean(m.trace, m.boot.tables.Keys) ==> m.ignored == 0)
  }

  method TearDown(m: Memory, ghost all: set<Frame>)
    requires m.Accounts(all, {})
    modifies m`free, m`ignored
    ensures TornDown(m, all)
  {
    m.Destroy(all);
    hide TableOf;
  }

  /** The body of elf_load's page loop. On failure the address space is torn down. */
  method LoadPage(m: Memory, f: File, ph: Phdr, va: nat, ghost all: set<Frame>) returns (code: int)
    requires m.Accounts(all, {}) && PageOf(ph, va) && OffsetInRange(ph, va)
    modifies m
    ensures code in {0, -104, -105, -106}
    ensures code == 0 ==>
              && m.Accounts(all, {}) && ChunkReads(f, ph, va)
              && Seen(m) == old(Seen(m))[PageNo(va) := Shown(SegmentPage(f.bytes, ph, va), Writable(ph))]
    ensures m.trace == if code in {0, -106} then old(m.trace) + [PageNo(va)] else old(m.trace)
    ensures code == -106 ==> !ChunkReads(f, ph, va)
    ensures code != 0 ==> TornDown(m, all)
    ensures code == 0 ==> Pages(m.free) >= Pages(old(m.free)) - 2
    ensures code in {-104, -105} ==> Pages(old(m.free)) < 2
    ensures code == -104 <==> Pages(old(m.free)) == 0
    ensures code == -105 <==> Pages(old(m.free)) == 1 && !old(HasTable(m.dir, m.kernel, TableOf(PageNo(va))))
  {
    hide Pages, Owns, Shaped, Traced, KernelReady, Partition, View, TornDown, Maps, EntryOf, HasTable;
    InUserTables(ph, va);
    var page: Frame;
    code, page := MapFresh(m, PageNo(va), Writable(ph), Zeros(PAGE_SIZE), all);
    if code != 0 {
      TearDown(m, all);
      return if code == -1 then -104 else -105;
    }
    var ok := FillPage(m, f, ph, va, page, all);
    if !ok {
      TearDown(m, all);
      return -106;
    }
  }

  lemma InUserTables(ph: Phdr, va: nat)
    requires PageOf(ph, va)
    ensures FIRST_USER_TABLE <= TableOf(PageNo(va)) < DIRECTORY_ENTRIES
  {
  }

  // ---- segments ----------------------------------------------------------------------------

  predicate Accepted(ph: Phdr) {
    Loadable(ph) && USER_MIN_VA <= ph.vaddr && ph.filesz <= ph.memsz && NoWrappedPage(ph)
  }

  lemma PlusPut(a: Image, b: Image, n: nat, s: Shown)
    ensures a + b[n := s] == (a + b)[n := s]
  {
  }

  /** The page at `va` is page `k` of the segment. */
  lemma PagesStep(f: File, ph: Phdr, va: nat, k: nat)
    requires Accepted(ph) && va == VaStart(ph) + k * PAGE_SIZE && va < VaEnd(ph)
    ensures PageOf(ph, va) && k < PageCount(ph) && PageNo(va) == FirstPage(ph) + k
    ensures PagesImage(f.bytes, ph, k + 1) ==
            PagesImage(f.bytes, ph, k)[PageNo(va) := Shown(SegmentPage(f.bytes, ph, va), Writable(ph))]
    ensures FIRST_USER_TABLE <= TableOf(PageNo(va)) < DIRECTORY_ENTRIES
  {
    SpanCoversIff(ph);
    assert PageNo(va) * PAGE_SIZE == va;
  }

  lemma FirstTurn(f: File, ph: Phdr, base: Image, was: seq<nat>)
    requires Accepted(ph)
    ensures base + PagesImage(f.bytes, ph, 0) == base && OffsetInRange(ph, VaStart(ph))
    ensures was + Numbers(FirstPage(ph), 0) == was
  {
  }

  lemma LastTurn(ph: Phdr, va: nat, k: nat)
    requires Accepted(ph) && va == VaStart(ph) + k * PAGE_SIZE && k <= PageCount(ph) && va >= VaEnd(ph)
    ensures k == PageCount(ph)
  {
    SpanCoversIff(ph);
  }

  lemma NumbersStep(first: nat, k: nat, count: nat)
    requires k < count
    ensures Numbers(first, k + 1) == Numbers(first, k) + [first + k] && Numbers(first, k + 1) <= Numbers(first, count)
    ensures Numbers(first, k) <= Numbers(first, count)
  {
  }

  lemma PrefixThrough(a: seq<nat>, b: seq<nat>, c: seq<nat>)
    requires b <= c
    ensures a + b <= a + c
  {
  }

  /** The first `k` pages of the segment are loaded on top of `base`, with at most two of `n` free pages used
      for each. */
  ghost predicate Loaded(m: Memory, f: File, ph: Phdr, k: nat, base: Image, was: seq<nat>, all: set<Frame>, n: nat)
    reads m
  {
    && m.Accounts(all, {})
    && Pages(m.free) + 2 * k >= n
    && Seen(m) == base + PagesImage(f.bytes, ph, k)
    && m.trace == was + Numbers(FirstPage(ph), k)
  }

  /** The load stopped somewhere among `pages`, after those in `was`. */
  ghost predicate StoppedIn(m: Memory, all: set<Frame>, was: seq<nat>, pages: seq<nat>)
    reads m
  {
    TornDown(m, all) && m.trace <= was + pages
  }

  /** One turn of the page loop. */
  method SegmentTurn(m: Memory, f: File, ph: Phdr, va: nat, ghost k: nat, ghost base: Image, ghost was: seq<nat>,
                     ghost all: set<Frame>, ghost n: nat) returns (code: int)
    requires Loaded(m, f, ph, k, base, was, all, n) && Accepted(ph) && |f.bytes| <= 0xFFFF_F000
    requires va == VaStart(ph) + k * PAGE_SIZE && va < VaEnd(ph) && OffsetInRange(ph, va)
    modifies m
    ensures code in {0, -104, -105, -106}
    ensures code == 0 ==> Loaded(m, f, ph, k + 1, base, was, all, n) && ChunkReads(f, ph, va)
    ensures code == -106 ==> !ChunkReads(f, ph, va)
    ensures code in {-104, -105} ==> n < 2 * PageCount(ph)
    ensures code != 0 ==> StoppedIn(m, all, was, Numbers(FirstPage(ph), PageCount(ph)))
  {
    hide Pages, PagesImage, ChunkReads, OffsetInRange, VaStart, VaEnd, PageCount, Owns, Shaped, PageNo, FirstPage,
         Loadable, EndsInRange, SegmentPage, View, Partition, Traced, KernelReady, TornDown, Numbers;
    PagesStep(f, ph, va, k);
    var first, count := FirstPage(ph), PageCount(ph);
    NumbersStep(first, k, count);
    PrefixThrough(was, Numbers(first, k), Numbers(first, count));
    PrefixThrough(was, Numbers(first, k + 1), Numbers(first, count));
    PlusPut(base, PagesImage(f.bytes, ph, k), PageNo(va), Shown(SegmentPage(f.bytes, ph, va), Writable(ph)));
    code := LoadPage(m, f, ph, va, all);
  }

  lemma ChunksStep(f: File, ph: Phdr, va: nat)
    ensures va >= VaEnd(ph) ==> ChunksRead(f, ph, va)
    ensures va < VaEnd(ph) ==> (ChunksRead(f, ph, va) <==> ChunkReads(f, ph, va) && ChunksRead(f, ph, va + PAGE_SIZE))
  {
  }

  /** The page loop of elf_load for one accepted segment. */
  method SegmentLoop(m: Memory, f: File, ph: Phdr, ghost base: Image, ghost was: seq<nat>, ghost all: set<Frame>,
                     ghost n: nat) returns (code: int)
    requires Loaded(m, f, ph, 0, base, was, all, n) && Accepted(ph) && |f.bytes| <= 0xFFFF_F000
    requires OffsetInRange(ph, VaStart(ph))
    modifies m
    ensures code in {0, -104, -105, -106}
    ensures code == 0 ==> Loaded(m, f, ph, PageCount(ph), base, was, all, n) && ChunksRead(f, ph, VaStart(ph))
    ensures code == -106 ==> !ChunksRead(f, ph, VaStart(ph))
    ensures code in {-104, -105} ==> n < 2 * PageCount(ph)
    ensures code != 0 ==> StoppedIn(m, all, was, Numbers(FirstPage(ph), PageCount(ph)))
  {
    hide *;
    ghost var k := 0;
    var va := VaStart(ph);
    while va < VaEnd(ph)
      invariant va == VaStart(ph) + k * PAGE_SIZE && k <= PageCount(ph)
      invariant OffsetInRange(ph, va) && ChunksRead(f, ph, VaStart(ph)) == ChunksRead(f, ph, va)
      invariant Loaded(m, f, ph, k, base, was, all, n)
    {
      PagesStep(f, ph, va, k);
      ChunksStep(f, ph, va);
      code := SegmentTurn(m, f, ph, va, k, base, was, all, n);
      if code != 0 { return; }
      NextOffset(f, ph, va);
      va := va + PAGE_SIZE;
      k := k + 1;
    }
    LastTurn(ph, va, k);
    ChunksStep(f, ph, va);
    code := 0;
  }

  method LoadSegment(m: Memory, f: File, ph: Phdr, ghost all: set<Frame>) returns (code: int)
    requires m.Accounts(all, {}) && Accepted(ph) && |f.bytes| <= 0xFFFF_F000
    modifies m
    ensures code in {0, -104, -105, -106}
    ensures code == 0 ==> Loaded(m, f, ph, PageCount(ph), old(Seen(m)), old(m.trace), all, Pages(old(m.free)))
    ensures code == 0 ==> ChunksRead(f, ph, VaStart(ph))
    ensures code == -106 ==> !ChunksRead(f, ph, VaStart(ph))
    ensures code in {-104, -105} ==> Pages(old(m.free)) < 2 * PageCount(ph)
    ensures code != 0 ==> StoppedIn(m, all, old(m.trace), Numbers(FirstPage(ph), PageCount(ph)))
  {
    hide Pages, View, PagesImage, ChunkReads, OffsetInRange, VaStart, VaEnd, PageCount, Loadable, EndsInRange, Owns,
         Shaped, StoppedIn, PageNo, FirstPage, Partition, Traced, KernelReady, Numbers;
    FirstTurn(f, ph, Seen(m), m.trace);
    code := SegmentLoop(m, f, ph, Seen(m), m.trace, all, Pages(m.free));
  }

  // ---- the program headers -----------------------------------------------------------------

  ghost predicate SegmentsLoaded(m: Memory, f: File, eh: Ehdr, i: nat, all: set<Frame>)
    reads m
  {
    && m.Accounts(all, {}) && Seen(m) == SegmentsImage(f, eh, i)
    && m.trace == SegmentPlan(f, eh, i)
    && Pages(m.free) + 1 + 2 * |SegmentPlan(f, eh, i)| >= Pages(all)
  }

  lemma {:induction false} PlanGrows(f: File, eh: Ehdr, i: nat, n: nat)
    requires i <= n
    ensures SegmentPlan(f, eh, i) <= SegmentPlan(f, eh, n)
    decreases n
  {
    hide SegmentNumbers;
    if i < n { PlanGrows(f, eh, i, n - 1); }
  }

  lemma Skipped(f: File, eh: Ehdr, i: nat)
    requires i < eh.phnum && ReadPhdr(f, eh, i).Some? && !Loadable(ReadPhdr(f, eh, i).value)
    ensures SegmentsVerdict(f, eh, i) == SegmentsVerdict(f, eh, i + 1)
    ensures SegmentsImage(f, eh, i + 1) == SegmentsImage(f, eh, i)
    ensures SegmentPlan(f, eh, i + 1) == SegmentPlan(f, eh, i)
  {
    hide Loadable;
  }

  lemma Refused(f: File, eh: Ehdr, i: nat)
    requires i < eh.phnum
    ensures ReadPhdr(f, eh, i).None? ==> SegmentsVerdict(f, eh, i) == -101
    ensures ReadPhdr(f, eh, i).Some? && Loadable(ReadPhdr(f, eh, i).value) ==>
              var ph := ReadPhdr(f, eh, i).value;
              && (ph.vaddr < USER_MIN_VA ==> SegmentsVerdict(f, eh, i) == -102)
              && (ph.vaddr >= USER_MIN_VA && ph.filesz > ph.memsz ==> SegmentsVerdict(f, eh, i) == -103)
              && (ph.vaddr >= USER_MIN_VA && ph.filesz <= ph.memsz && !ChunksRead(f, ph, VaStart(ph)) ==>
                    SegmentsVerdict(f, eh, i) == -106)
  {
  }

  lemma Taken(f: File, eh: Ehdr, i: nat, ph: Phdr)
    requires i < eh.phnum && ReadPhdr(f, eh, i) == Some(ph) && Accepted(ph)
    ensures ChunksRead(f, ph, VaStart(ph)) ==> SegmentsVerdict(f, eh, i) == SegmentsVerdict(f, eh, i + 1)
    ensures SegmentsImage(f, eh, i + 1) == SegmentsImage(f, eh, i) + PagesImage(f.bytes, ph, PageCount(ph))
    ensures SegmentPlan(f, eh, i + 1) == SegmentPlan(f, eh, i) + Numbers(FirstPage(ph), PageCount(ph))
  {
    hide NoWrappedPage, PageCount, FirstPage, VaStart, ChunksRead, PagesImage;
  }

  /** The load stopped with `code` at header `i` or a later one. */
  ghost predicate StopsWith(m: Memory, f: File, eh: Ehdr, i: nat, code: int, all: set<Frame>)
    requires i <= eh.phnum
    reads m
  {
    && code != 0
    && (IsMemoryCode(code) || code == SegmentsVerdict(f, eh, i))
    && (IsMemoryCode(code) ==> Pages(all) < 1 + 2 * |SegmentPlan(f, eh, eh.phnum)|)
    && StoppedIn(m, all, [], SegmentPlan(f, eh, eh.phnum))
  }

  /** The address space is given up for a reason that is not a lack of memory. */
  method GiveUp(m: Memory, f: File, eh: Ehdr, i: nat, ghost all: set<Frame>)
    requires SegmentsLoaded(m, f, eh, i, all) && i <= eh.phnum
    modifies m
    ensures StoppedIn(m, all, [], SegmentPlan(f, eh, eh.phnum))
  {
    hide SegmentsImage, SegmentPlan, Pages, Owns, Shaped, View, Partition, Traced, KernelReady, TornDown;
    PlanGrows(f, eh, i, eh.phnum);
    TearDown(m, all);
  }

  lemma SegmentsStart(m: Memory, f: File, eh: Ehdr, i: nat, all: set<Frame>)
    requires SegmentsLoaded(m, f, eh, i, all)
    ensures m.Accounts(all, {}) && Seen(m) == SegmentsImage(f, eh, i) && m.trace == SegmentPlan(f, eh, i)
    ensures Pages(m.free) + 1 + 2 * |SegmentPlan(f, eh, i)| >= Pages(all)
  {
    hide SegmentsImage, SegmentPlan, Owns, Shaped, View, Partition, Traced, KernelReady;
  }

  lemma SegmentDone(m: Memory, f: File, eh: Ehdr, i: nat, ph: Phdr, all: set<Frame>, n: nat)
    requires i < eh.phnum && ReadPhdr(f, eh, i) == Some(ph) && Accepted(ph)
    requires n + 1 + 2 * |SegmentPlan(f, eh, i)| >= Pages(all)
    requires Loaded(m, f, ph, PageCount(ph), SegmentsImage(f, eh, i), SegmentPlan(f, eh, i), all, n)
    ensures SegmentsLoaded(m, f, eh, i + 1, all)
  {
    Taken(f, eh, i, ph);
    hide Pages, View, SegmentsImage, SegmentPlan, PagesImage, Owns, Shaped, Partition, FirstPage, PageCount, ReadPhdr,
         Traced, KernelReady, Numbers, NoWrappedPage;
    assert |Numbers(FirstPage(ph), PageCount(ph))| == PageCount(ph);
  }

  lemma SegmentStopped(m: Memory, f: File, eh: Ehdr, i: nat, ph: Phdr, all: set<Frame>, code: int, n: nat)
    requires i < eh.phnum && ReadPhdr(f, eh, i) == Some(ph) && Accepted(ph) && code in {-104, -105, -106}
    requires StoppedIn(m, all, SegmentPlan(f, eh, i), Numbers(FirstPage(ph), PageCount(ph)))
    requires code == -106 ==> !ChunksRead(f, ph, VaStart(ph))
    requires n + 1 + 2 * |SegmentPlan(f, eh, i)| >= Pages(all) && (code in {-104, -105} ==> n < 2 * PageCount(ph))
    ensures StopsWith(m, f, eh, i, code, all)
  {
    hide Pages, SegmentsImage, SegmentPlan, FirstPage, PageCount, ReadPhdr, ChunksRead, SegmentsVerdict, PagesImage,
         Numbers, NoWrappedPage, TornDown, Loadable, VaStart;
    Taken(f, eh, i, ph);
    Refused(f, eh, i);
    PlanGrows(f, eh, i + 1, eh.phnum);
    assert |Numbers(FirstPage(ph), PageCount(ph))| == PageCount(ph);
  }

  /** One turn of the loop over the program headers. */
  method HeaderTurn(m: Memory, f: File, eh: Ehdr, i: nat, ghost all: set<Frame>) returns (code: int)
    requires SegmentsLoaded(m, f, eh, i, all) && i < eh.phnum && |f.bytes| <= 0xFFFF_F000
    requires var p := ReadPhdr(f, eh, i); p.Some? && Loadable(p.value) ==> NoWrappedPage(p.value)
    modifies m
    ensures code == 0 ==> SegmentsLoaded(m, f, eh, i + 1, all)
    ensures code == 0 ==> SegmentsVerdict(f, eh, i) == SegmentsVerdict(f, eh, i + 1)
    ensures code != 0 ==> StopsWith(m, f, eh, i, code, all)
  {
    hide Pages, SegmentsImage, SegmentPlan, SegmentsVerdict, View, PagesImage, Owns, Shaped, Partition, FirstPage,
         PageCount, ReadPhdr, ChunksRead, VaStart, Traced, KernelReady, Numbers, NoWrappedPage, StoppedIn, Loaded;
    Refused(f, eh, i);
    var p := ReadPhdr(f, eh, i);
    if p.None? {
      GiveUp(m, f, eh, i, all);
      return -101;
    }
    var ph := p.value;
    if !Loadable(ph) {
      Skipped(f, eh, i);
      return 0;
    }
    if ph.vaddr < USER_MIN_VA {
      GiveUp(m, f, eh, i, all);
      return -102;
    }
    if ph.filesz > ph.memsz {
      GiveUp(m, f, eh, i, all);
      return -103;
    }
    ghost var n := Pages(m.free);
    SegmentsStart(m, f, eh, i, all);
    Taken(f, eh, i, ph);
    code := LoadSegment(m, f, ph, all);
    if code == 0 {
      SegmentDone(m, f, eh, i, ph, all, n);
    } else {
      SegmentStopped(m, f, eh, i, ph, all, code, n);
    }
  }

  /** The loop over the program headers. */
  method LoadSegments(m: Memory, f: File, eh: Ehdr, ghost all: set<Frame>) returns (code: int)
    requires SegmentsLoaded(m, f, eh, 0, all) && |f.bytes| <= 0xFFFF_F000
    requires forall i :: 0 <= i < eh.phnum ==>
               var p := ReadPhdr(f, eh, i); p.Some? && Loadable(p.value) ==> NoWrappedPage(p.value)
    modifies m
    ensures code == 0 ==> SegmentsLoaded(m, f, eh, eh.phnum, all) && SegmentsVerdict(f, eh, 0) == 0
    ensures code != 0 ==> StopsWith(m, f, eh, 0, code, all)
  {
    VerdictEnds(f, eh);
    hide Pages, SegmentsLoaded, SegmentsImage, SegmentPlan, SegmentsVerdict, View, PagesImage, Owns, Shaped,
         Partition, ReadPhdr, Loadable, NoWrappedPage, StoppedIn;
    for i := 0 to eh.phnum
      invariant SegmentsLoaded(m, f, eh, i, all) && SegmentsVerdict(f, eh, 0) == SegmentsVerdict(f, eh, i)
    {
      code := HeaderTurn(m, f, eh, i, all);
      if code != 0 { return; }
    }
    code := 0;
  }

  lemma VerdictEnds(f: File, eh: Ehdr)
    ensures SegmentsVerdict(f, eh, eh.phnum) == 0
  {
  }

  // ---- the library and the stack -----------------------------------------------------------

  /** The first `k` pages of a window at `first` are mapped on top of `base` as `window` shows them. */
  ghost predicate Mapped(m: Memory, base: Image, window: Image, first: nat, k: nat, was: seq<nat>, all: set<Frame>,
                         n: nat)
    reads m
  {
    && m.Accounts(all, {})
    && Pages(m.free) + 2 * k >= n
    && Seen(m) == base + window
    && m.trace == was + Numbers(first, k)
  }

  /** The mapping of a window stopped somewhere in it; nothing is torn down yet. */
  ghost predicate Partly(m: Memory, all: set<Frame>, was: seq<nat>, pages: seq<nat>)
    reads m
  {
    m.Accounts(all, {}) && m.trace <= was + pages
  }

  /** Map one more page of a window. */
  method WindowTurn(m: Memory, content: seq<byte>, first: nat, k: nat, ghost count: nat, ghost base: Image,
                    ghost window: Image, ghost was: seq<nat>, ghost all: set<Frame>, ghost n: nat)
    returns (code: int, page: Frame)
    requires Mapped(m, base, window, first, k, was, all, n) && k < count
    requires FIRST_USER_TABLE <= TableOf(first + k) < DIRECTORY_ENTRIES
    modifies m
    ensures code in {0, -1, -2}
    ensures code == 0 ==> Mapped(m, base, window[first + k := Shown(content, true)], first, k + 1, was, all, n)
    ensures code == -1 ==> Pages(m.free) == 0
    ensures code == -2 ==> Pages(m.free) == 1
    ensures code == 0 ==> PageAt(m, first + k, page, true)
    ensures code != 0 ==> Partly(m, all, was, Numbers(first, count)) && n < 2 * count
    ensures code == 0 ==> SameBut(old(m.dir), old(m.kernel), m.dir, m.kernel, first + k)
    ensures code == 0 ==> HasTable(m.dir, m.kernel, TableOf(first + k)) && TakenLowest(old(m.free), m.free, page)
    ensures code == 0 && m.unbroken && old(HasTable(m.dir, m.kernel, TableOf(first + k))) ==>
              m.free == {} || page + 1 in m.free
  {
    hide Pages, Owns, Shaped, Partition, View, Traced, KernelReady, Numbers, TableOf, PageAt, SameBut, HasTable,
         TakenLowest, OneRun;
    NumbersStep(first, k, count);
    PrefixThrough(was, Numbers(first, k), Numbers(first, count));
    PlusPut(base, window, first + k, Shown(content, true));
    code, page := MapFresh(m, first + k, true, content, all);
  }

  lemma LibcStep(l: Libc, k: nat)
    requires GoodLibc(l) && k < LibcPages(l)
    ensures LibcPages(l) <= 256
    ensures LibcImage(l, k + 1) == LibcImage(l, k)[LIBC_VA / PAGE_SIZE + k := Shown(LibcPage(l.image, k), true)]
    ensures FIRST_USER_TABLE <= TableOf(LIBC_VA / PAGE_SIZE + k) < DIRECTORY_ENTRIES
  {
  }

  /** What the loop of dyld_map_libc puts into page `k`: a piece of the image, padded with zeros. */
  function LibcCopy(image: seq<byte>, k: nat): (b: seq<byte>)
    requires k * PAGE_SIZE < |image|
    ensures b == LibcPage(image, k)
  {
    var off := k * PAGE_SIZE;
    var copy := if off + PAGE_SIZE > |image| then |image| - off else PAGE_SIZE;
    var b := image[off..off + copy] + Zeros(PAGE_SIZE - copy);
    assert b == LibcPage(image, k);
    b
  }

  lemma WindowStarts(m: Memory, first: nat, all: set<Frame>)
    requires m.Accounts(all, {})
    ensures Mapped(m, Seen(m), map[], first, 0, m.trace, all, Pages(m.free))
  {
    hide Owns, Shaped, Partition, View, Traced, KernelReady;
    assert Seen(m) + map[] == Seen(m);
    assert m.trace + Numbers(first, 0) == m.trace;
  }

  /** dyld_map_libc: on failure the caller tears the address space down. */
  method MapLibc(m: Memory, l: Libc, ghost all: set<Frame>) returns (code: int)
    requires m.Accounts(all, {}) && GoodLibc(l)
    modifies m
    ensures code in {0, -1}
    ensures code == 0 ==>
              Mapped(m, old(Seen(m)), LibcImage(l, LibcPages(l)), LIBC_VA / PAGE_SIZE, LibcPages(l),
                     old(m.trace), all, Pages(old(m.free)))
    ensures code != 0 ==> Partly(m, all, old(m.trace), LibcNumbers(l))
    ensures code != 0 ==> Pages(old(m.free)) < 2 * LibcPages(l)
  {
    hide Pages, View, Owns, Shaped, Partition, LibcImage, LibcPage, Traced, KernelReady, Numbers, TableOf;
    ghost var base, was, n := Seen(m), m.trace, Pages(m.free);
    WindowStarts(m, LIBC_VA / PAGE_SIZE, all);
    LibcNone(l);
    if l.NoLibc? { return 0; }
    for i := 0 to LibcPages(l)
      invariant Mapped(m, base, LibcImage(l, i), LIBC_VA / PAGE_SIZE, i, was, all, n)
    {
      LibcStep(l, i);
      var page: Frame;
      code, page := WindowTurn(m, LibcCopy(l.image, i), LIBC_VA / PAGE_SIZE, i, LibcPages(l), base, LibcImage(l, i),
                               was, all, n);
      if code != 0 { return -1; }
    }
    code := 0;
  }

  lemma LibcNone(l: Libc)
    ensures LibcImage(l, 0) == map[] && (l.NoLibc? ==> LibcPages(l) == 0)
  {
  }

  lemma StackStep(k: nat)
    requires k < STACK_PAGES
    ensures StackImage(k + 1) == StackImage(k)[STACK_LOW / PAGE_SIZE + k := Shown(Zeros(PAGE_SIZE), true)]
    ensures FIRST_USER_TABLE <= TableOf(STACK_LOW / PAGE_SIZE + k) < DIRECTORY_ENTRIES
  {
  }

  /** Page `j` of the stack window is mapped to the physical page `f`. */
  predicate StackPageIs(d: Dir, k: Kernel, j: nat, f: Frame) {
    Maps(d, k, STACK_LOW / PAGE_SIZE + j) && EntryOf(d, k, STACK_LOW / PAGE_SIZE + j) == Pte(f, true, true)
  }

  /** The stack pages mapped so far, lowest address first, are the physical pages `stack`, one above the other. If
      there was no gap in the free pages there is none between the stack pages, from the second on. */
  ghost predicate StackRising(d: Dir, k: Kernel, unbroken: bool, stack: seq<Frame>) {
    && (forall j :: 0 <= j < |stack| ==> StackPageIs(d, k, j, stack[j]))
    && (forall i, j :: 0 <= i < j < |stack| ==> stack[i] < stack[j])
    && (unbroken ==> forall j :: 2 <= j < |stack| ==> stack[j] == stack[j - 1] + 1)
  }

  /** Where the next stack page will be. */
  ghost predicate StackGoesOn(unbroken: bool, free: set<Frame>, stack: seq<Frame>) {
    stack != [] ==>
      var last := stack[|stack| - 1];
      && (forall p :: p in free ==> last < p)
      && (unbroken && |stack| >= 2 ==> free == {} || last + 1 in free)
  }

  lemma StackGrows(d: Dir, k: Kernel, d1: Dir, k1: Kernel, unbroken: bool, was: set<Frame>, now: set<Frame>,
                   stack: seq<Frame>, page: Frame)
    requires StackRising(d, k, unbroken, stack) && StackGoesOn(unbroken, was, stack)
    requires SameBut(d, k, d1, k1, STACK_LOW / PAGE_SIZE + |stack|)
    requires StackPageIs(d1, k1, |stack|, page)
    requires TakenLowest(was, now, page) && (unbroken && stack != [] ==> now == {} || page + 1 in now)
    ensures StackRising(d1, k1, unbroken, stack + [page]) && StackGoesOn(unbroken, now, stack + [page])
  {
    hide Maps, EntryOf;
    var s := stack + [page];
    forall j | 0 <= j < |s| ensures StackPageIs(d1, k1, j, s[j]) {
      if j < |stack| { assert StackPageIs(d, k, j, stack[j]); }
    }
    forall i, j | 0 <= i < j < |s| ensures s[i] < s[j] {
      if j < |stack| {
        assert s[i] == stack[i] && s[j] == stack[j];
      } else if i < |stack| - 1 {
        assert stack[i] < stack[|stack| - 1];
      }
    }
    if unbroken {
      forall j | 2 <= j < |s| ensures s[j] == s[j - 1] + 1 {
        if j < |stack| { assert s[j] == stack[j] && s[j - 1] == stack[j - 1]; }
      }
    }
  }

  ghost predicate StackAt(m: Memory, stack: seq<Frame>)
    reads m
  {
    |stack| == STACK_PAGES && StackRising(m.dir, m.kernel, m.unbroken, stack)
  }

  lemma PageIs(m: Memory, j: nat, page: Frame)
    requires PageAt(m, STACK_LOW / PAGE_SIZE + j, page, true)
    ensures StackPageIs(m.dir, m.kernel, j, page)
  {
  }

  lemma StackTable(k: nat)
    requires k < STACK_PAGES
    ensures TableOf(STACK_LOW / PAGE_SIZE + k) == TableOf(STACK_LOW / PAGE_SIZE)
  {
  }

  /** The stack loop of elf_load: the frame of the top page, or -300 without a page, -301 without a page
      table. */
  method MapStack(m: Memory, ghost all: set<Frame>) returns (code: int, top: Frame, ghost stack: seq<Frame>)
    requires m.Accounts(all, {})
    modifies m
    ensures code in {0, -300, -301}
    ensures code == 0 ==>
              Mapped(m, old(Seen(m)), StackImage(STACK_PAGES), STACK_LOW / PAGE_SIZE, STACK_PAGES, old(m.trace), all,
                     Pages(old(m.free)))
    ensures code == 0 ==> StackAt(m, stack) && stack[STACK_PAGES - 1] == top
    ensures code != 0 ==> Partly(m, all, old(m.trace), StackNumbers())
    ensures code != 0 ==> Pages(old(m.free)) < 2 * STACK_PAGES
    ensures code == -300 ==> Pages(m.free) == 0
    ensures code == -301 ==> Pages(m.free) == 1
  {
    hide Pages, View, Owns, Shaped, Partition, StackImage, Zeros, Traced, KernelReady, Numbers, TableOf, PageAt,
         SameBut, HasTable, TakenLowest, OneRun, StackRising, StackGoesOn, StackPageIs;
    ghost var base, was, n := Seen(m), m.trace, Pages(m.free);
    WindowStarts(m, STACK_LOW / PAGE_SIZE, all);
    StackNone(m.dir, m.kernel, m.unbroken, m.free);
    top := 0;
    stack := [];
    for i := 0 to STACK_PAGES
      invariant Mapped(m, base, StackImage(i), STACK_LOW / PAGE_SIZE, i, was, all, n)
      invariant |stack| == i && StackRising(m.dir, m.kernel, m.unbroken, stack)
      invariant StackGoesOn(m.unbroken, m.free, stack)
      invariant i > 0 ==> stack[i - 1] == top
      invariant i > 0 ==> HasTable(m.dir, m.kernel, TableOf(STACK_LOW / PAGE_SIZE))
    {
      StackStep(i);
      StackTable(i);
      ghost var d, k, free := m.dir, m.kernel, m.free;
      code, top := WindowTurn(m, Zeros(PAGE_SIZE), STACK_LOW / PAGE_SIZE, i, STACK_PAGES, base, StackImage(i), was,
                              all, n);
      if code != 0 { return if code == -1 then -300 else -301, 0, []; }
      PageIs(m, i, top);
      StackGrows(d, k, m.dir, m.kernel, m.unbroken, free, m.free, stack, top);
      stack := stack + [top];
    }
    code := 0;
  }

  lemma StackNone(d: Dir, k: Kernel, unbroken: bool, free: set<Frame>)
    ensures StackImage(0) == map[] && StackRising(d, k, unbroken, []) && StackGoesOn(unbroken, free, [])
  {
  }

  // ---- elf_load ----------------------------------------------------------------------------

  /** The process's address space is complete. Each of its pages is mapped once exactly if no two windows share
      one, and the kernel's tables are as they were exactly if none lies in a mirrored table. */
  ghost predicate Complete(m: Memory, f: File, eh: Ehdr, l: Libc, all: set<Frame>)
    requires GoodLibc(l)
    reads m
  {
    && m.Accounts(all, {}) && m.trace == Plan(f, eh, l)
    && Seen(m) == FullImage(f, eh, l)
    && (m.lost == {} <==> WindowsApart(f, eh, l))
    && (m.kernel == m.boot <==> Unmirrored(Plan(f, eh, l), m.boot.tables.Keys))
  }

  /** From the mapped segments to the complete address space; -107, -300 or -301 when memory runs out. */
  method MapRest(m: Memory, f: File, eh: Ehdr, l: Libc, ghost all: set<Frame>)
    returns (code: int, top: Frame, ghost stack: seq<Frame>)
    requires SegmentsLoaded(m, f, eh, eh.phnum, all) && GoodLibc(l)
    modifies m
    ensures code in {0, -107, -300, -301}
    ensures code == 0 ==> Complete(m, f, eh, l, all)
    ensures code == 0 ==> StackAt(m, stack) && stack[STACK_PAGES - 1] == top
    ensures code != 0 ==> StoppedIn(m, all, [], Plan(f, eh, l)) && !EnoughMemory(f, eh, l, Pages(all))
  {
    hide Pages, View, Owns, Shaped, Partition, StackImage, LibcImage, SegmentsImage, SegmentPlan, KernelReady,
         Numbers, TableOf, StackRising, TornDown, Unmirrored, Distinct;
    PlanParts(f, eh, l);
    top, stack := 0, [];
    code := MapLibc(m, l, all);
    if code != 0 {
      TearDown(m, all);
      return -107, 0, [];
    }
    code, top, stack := MapStack(m, all);
    if code != 0 {
      TearDown(m, all);
      return;
    }
    TracedTables(m.dir, m.kernel, m.boot, m.trace, m.lost);
  }

  lemma PlanParts(f: File, eh: Ehdr, l: Libc)
    ensures SegmentPlan(f, eh, eh.phnum) + LibcNumbers(l) <= Plan(f, eh, l)
    ensures |Plan(f, eh, l)| == |SegmentPlan(f, eh, eh.phnum)| + LibcPages(l) + STACK_PAGES
    ensures SegmentPlan(f, eh, eh.phnum) <= Plan(f, eh, l)
  {
  }

  lemma CleanStop(m: Memory, plan: seq<nat>, all: set<Frame>)
    requires TornDown(m, all) && m.trace <= plan && Clean(plan, m.boot.tables.Keys)
    ensures m.free == all && m.ignored == 0 && m.kernel == m.boot
  {
    hide TableOf;
    PrefixClean(m.trace, plan, m.boot.tables.Keys);
  }

  lemma NothingTaken(m: Memory, all: set<Frame>)
    requires m.trace == [] && m.free == all && m.kernel == m.boot && m.ignored == 0
    ensures TornDown(m, all)
  {
  }

  /** elf_load. With enough memory the code is the verdict on the file. On success the address space is
      complete. On failure `m.trace` says which pages were mapped before it, a prefix of the plan, and every
      page taken is free again, each freed once, exactly if those are clean. */
  method ElfLoad(m: Memory, f: File, l: Libc, ghost all: set<Frame>)
    returns (code: int, out: Option<LoadResult>, ghost stack: seq<Frame>)
    requires m.free == all && Tracked(all, m.total) && KernelReady(m.boot, all, m.total) && m.kernel == m.boot
    requires GoodLibc(l) && InRange(f) && (m.unbroken ==> OneRun(all))
    modifies m
    ensures IsMemoryCode(code) || code == Verdict(f)
    ensures IsMemoryCode(code) ==> Header(f).Some? && !EnoughMemory(f, Header(f).value, l, Pages(all))
    ensures code == 0 <==> out.Some?
    ensures code == 0 ==> Header(f).Some? && Complete(m, f, Header(f).value, l, all)
    ensures code == 0 ==>
              && StackAt(m, stack)
              && out.value == LoadResult(Header(f).value.entry, 0x4010_1000, stack[STACK_PAGES - 1], 4096)
    ensures code != 0 ==> TornDown(m, all)
    ensures code != 0 ==> if Header(f).Some? then m.trace <= Plan(f, Header(f).value, l) else m.trace == []
    ensures code != 0 && (Header(f).Some? ==> Clean(Plan(f, Header(f).value, l), m.boot.tables.Keys)) ==>
              m.free == all && m.ignored == 0 && m.kernel == m.boot
  {
    hide Pages, View, Owns, Shaped, Partition, FullImage, SegmentsImage, SegmentPlan, SegmentsVerdict, ReadPhdr,
         Traced, Loadable, NoWrappedPage, ReadAt, KernelReady, TableOf, StackRising, OneRun, Complete,
         TornDown;
    out, stack := None, [];
    m.trace, m.ignored := [], 0;
    NothingTaken(m, all);
    var rd := ReadAt(f, 0, EHDR_SIZE);
    if rd.None? || |rd.value| != EHDR_SIZE { return -100, None, []; }
    var eh := ParseEhdr(rd.value);
    assert Header(f) == Some(eh);
    code := Validate(eh);
    if code != 0 { return; }

    PlanParts(f, eh, l);
    var ok := m.CreateDir(all);
    if !ok {
      NothingTaken(m, all);
      return -200, None, [];
    }
    NoSegments(m, f, eh, all);
    code := LoadSegments(m, f, eh, all);
    var top: Frame := 0;
    if code == 0 { code, top, stack := MapRest(m, f, eh, l, all); }
    if code != 0 {
      if Clean(Plan(f, eh, l), m.boot.tables.Keys) { CleanStop(m, Plan(f, eh, l), all); }
      return;
    }
    out := Some(LoadResult(eh.entry, STACK_VA + PAGE_SIZE, top, PAGE_SIZE));
  }

  lemma NoSegments(m: Memory, f: File, eh: Ehdr, all: set<Frame>)
    requires m.Accounts(all, {}) && m.trace == [] && View(m.dir, m.kernel, m.ram) == map[]
    requires Pages(m.free) == Pages(all) - 1
    ensures SegmentsLoaded(m, f, eh, 0, all)
  {
    hide View, Owns, Shaped, Partition, Traced, KernelReady;
  }
}
