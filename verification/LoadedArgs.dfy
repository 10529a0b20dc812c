/** The arguments of a program that was just loaded: elf_load's sixteen stack pages under elf_setup_args'
    frame (kernel/elf.c). */
module LoadedArgs {
  import opened Bytes
  import opened ElfFormat
  import opened PageSpace
  import opened LoadImage
  import opened Loader
  import opened LoaderTheorems
  import A = ArgvFrame
  import R = ArgvReader

  /** The page tables of a directory, as the process uses them. */
  function SpaceOf(d: Dir, k: Kernel): R.Space {
    map n | n in d.pages.Keys + k.pages.Keys && Maps(d, k, n) :: EntryOf(d, k, n).frame
  }

  /** Physical memory holds these pages. */
  ghost predicate Holds(mem: seq<byte>, ram: map<Frame, seq<byte>>, pages: seq<Frame>) {
    forall p :: p in pages && p in ram ==>
                  (p + 1) * PAGE_SIZE <= |mem| && mem[p * PAGE_SIZE..(p + 1) * PAGE_SIZE] == ram[p]
  }

  /** elf_load has succeeded, and `mem` is physical memory. */
  ghost predicate JustLoaded(m: Memory, f: File, eh: Ehdr, l: Libc, stack: seq<Frame>, mem: seq<byte>)
    reads m
  {
    GoodLibc(l) && Seen(m) == FullImage(f, eh, l) && StackAt(m, stack) && Holds(mem, m.ram, stack)
  }

  lemma SpaceHas(d: Dir, k: Kernel, j: nat, f: Frame)
    requires StackPageIs(d, k, j, f)
    ensures STACK_LOW / PAGE_SIZE + j in SpaceOf(d, k) && SpaceOf(d, k)[STACK_LOW / PAGE_SIZE + j] == f
  {
  }

  lemma StackShown(m: Memory, f: File, eh: Ehdr, l: Libc, j: nat, page: Frame)
    requires GoodLibc(l) && Seen(m) == FullImage(f, eh, l) && j < STACK_PAGES && StackPageIs(m.dir, m.kernel, j, page)
    ensures page in m.ram && m.ram[page] == Zeros(PAGE_SIZE)
  {
    hide FullImage;
    var n := STACK_LOW / PAGE_SIZE + j;
    StackPageShown(f, eh, l, n);
    assert Seen(m)[n].bytes == if page in m.ram then m.ram[page] else [];
  }

  lemma BlankPage(mem: seq<byte>, page: Frame)
    requires (page + 1) * PAGE_SIZE <= |mem| && mem[page * PAGE_SIZE..(page + 1) * PAGE_SIZE] == Zeros(PAGE_SIZE)
    ensures R.Blank(mem, page)
  {
    forall k | page * PAGE_SIZE <= k < (page + 1) * PAGE_SIZE ensures mem[k] == 0 {
      assert mem[k] == mem[page * PAGE_SIZE..(page + 1) * PAGE_SIZE][k - page * PAGE_SIZE];
    }
  }

  lemma StackPage(m: Memory, f: File, eh: Ehdr, l: Libc, stack: seq<Frame>, mem: seq<byte>, n: nat)
    requires JustLoaded(m, f, eh, l, stack, mem)
    requires R.LOW_PAGE <= n <= R.TOP_PAGE
    ensures var sp := SpaceOf(m.dir, m.kernel); n in sp && sp[n] == stack[n - R.LOW_PAGE] && R.Blank(mem, sp[n])
  {
    hide StackPageIs, FullImage, Seen, R.Blank, SpaceOf, Zeros;
    var j := n - R.LOW_PAGE;
    assert StackPageIs(m.dir, m.kernel, j, stack[j]);
    assert stack[j] in stack;
    SpaceHas(m.dir, m.kernel, j, stack[j]);
    StackShown(m, f, eh, l, j, stack[j]);
    BlankPage(mem, stack[j]);
  }

  /** elf_load leaves a fresh stack whose pages rise in physical memory. */
  lemma StackIsFresh(m: Memory, f: File, eh: Ehdr, l: Libc, stack: seq<Frame>, mem: seq<byte>)
    requires JustLoaded(m, f, eh, l, stack, mem)
    ensures R.FreshStack(mem, SpaceOf(m.dir, m.kernel)) && |stack| == STACK_PAGES
    ensures forall n :: R.LOW_PAGE <= n <= R.TOP_PAGE ==>
                          n in SpaceOf(m.dir, m.kernel) && SpaceOf(m.dir, m.kernel)[n] == stack[n - R.LOW_PAGE]
  {
    hide FullImage, Seen, SpaceOf, Holds, StackPageIs;
    var sp := SpaceOf(m.dir, m.kernel);
    forall n | R.LOW_PAGE <= n <= R.TOP_PAGE
      ensures n in sp && sp[n] == stack[n - R.LOW_PAGE] && R.Blank(mem, sp[n])
    {
      StackPage(m, f, eh, l, stack, mem, n);
    }
  }

  /** The write leaves the process's own directory and page tables alone. */
  ghost predicate TablesSpared(m: Memory, hi: nat, argv: seq<CString>)
    reads m
  {
    R.Spared(m.dir.root, hi, argv) && forall i :: i in m.dir.tables ==> R.Spared(m.dir.tables[i], hi, argv)
  }

  lemma WriteStaysOnStack(sp: R.Space, argv: seq<CString>, page: Frame)
    requires R.TOP_PAGE in sp && A.Footprint(argv) <= R.PhysicalTop(sp) && A.Footprint(argv) <= A.STACK_TOP
    requires R.RunsOn(sp, A.Footprint(argv)) && !R.Spared(page, R.PhysicalTop(sp), argv)
    ensures page <= sp[R.TOP_PAGE] && R.ArgcPage(argv) <= R.TOP_PAGE - (sp[R.TOP_PAGE] - page) <= R.TOP_PAGE
    ensures var n := R.TOP_PAGE - (sp[R.TOP_PAGE] - page); n in sp && sp[n] == page
  {
    hide A.Footprint;
    var i := sp[R.TOP_PAGE] - page;
    assert i * PAGE_SIZE < A.Footprint(argv);
    assert i <= R.TOP_PAGE;
    assert R.RunsAt(sp, i);
  }

  /** After a successful load the process recovers its arguments, up to the size of the stack, if the page argc
      is due on lies physically as far below the top stack page as it does in the process, and then nothing but
      stack pages is written; otherwise it does not, unless the write destroyed its page tables. */
  lemma ArgsAfterLoad(m: Memory, f: File, eh: Ehdr, l: Libc, stack: seq<Frame>, mem: seq<byte>, argv: seq<CString>)
    requires JustLoaded(m, f, eh, l, stack, mem)
    requires |argv| <= A.MAX_ARGS && A.Footprint(argv) <= A.STACK_PAGES * PAGE_SIZE
    ensures var sp := SpaceOf(m.dir, m.kernel);
            && R.TOP_PAGE in sp && R.ArgcPage(argv) in sp && sp[R.TOP_PAGE] == stack[STACK_PAGES - 1]
            && A.Footprint(argv) <= R.PhysicalTop(sp) <= |mem|
            && var now := A.Packed(mem, R.PhysicalTop(sp), argv);
            && (R.Adjoins(sp, R.ArgcPage(argv)) ==>
                  && R.ReadArgs(now, sp, A.STACK_TOP - A.Footprint(argv)) == Some(argv)
                  && forall p: Frame :: !R.Spared(p, R.PhysicalTop(sp), argv) ==> p in stack)
            && (!R.Adjoins(sp, R.ArgcPage(argv)) && TablesSpared(m, R.PhysicalTop(sp), argv) ==>
                  R.ReadArgs(now, sp, A.STACK_TOP - A.Footprint(argv)) != Some(argv))
  {
    hide SpaceOf, JustLoaded, A.Footprint, A.Packed, R.ReadArgs, TablesSpared, R.FreshStack, R.RunsOn, R.Spared,
         R.PhysicalTop;
    StackIsFresh(m, f, eh, l, stack, mem);
    var sp := SpaceOf(m.dir, m.kernel);
    R.RecoversIff(mem, sp, argv);
    R.WindowFits(mem, sp, argv);
    if R.Adjoins(sp, R.ArgcPage(argv)) {
      R.AdjoiningRuns(mem, sp, argv);
      forall p: Frame | !R.Spared(p, R.PhysicalTop(sp), argv) ensures p in stack {
        WriteStaysOnStack(sp, argv, p);
        var n := R.TOP_PAGE - (sp[R.TOP_PAGE] - p);
        assert sp[n] == stack[n - R.LOW_PAGE];
      }
    }
  }

  // ---- one input of each kind --------------------------------------------------------------

  /** When the free pages had no gap before the load, frames of up to fifteen pages are recovered. */
  lemma UnbrokenMemoryRecovers(m: Memory, f: File, eh: Ehdr, l: Libc, stack: seq<Frame>, mem: seq<byte>,
                               argv: seq<CString>)
    requires JustLoaded(m, f, eh, l, stack, mem)
    requires m.unbroken && |argv| <= A.MAX_ARGS && A.Footprint(argv) <= (A.STACK_PAGES - 1) * PAGE_SIZE
    ensures var sp := SpaceOf(m.dir, m.kernel);
            && R.TOP_PAGE in sp && A.Footprint(argv) <= R.PhysicalTop(sp) <= |mem|
            && R.ReadArgs(A.Packed(mem, R.PhysicalTop(sp), argv), sp, A.STACK_TOP - A.Footprint(argv)) == Some(argv)
  {
    hide SpaceOf, FullImage, Seen, Holds, A.Footprint, A.Packed, R.ReadArgs, TablesSpared, R.FreshStack, StackPageIs,
         R.PhysicalTop, R.Spared, StackAt;
    StackIsFresh(m, f, eh, l, stack, mem);
    R.FootprintBounds(argv);
    ArgsAfterLoad(m, f, eh, l, stack, mem, argv);
    var sp, n0 := SpaceOf(m.dir, m.kernel), R.ArgcPage(argv);
    StackCloses(m, stack, n0 - R.LOW_PAGE);
    assert R.Adjoins(sp, n0);
  }

  lemma {:induction false} StackCloses(m: Memory, stack: seq<Frame>, j: nat)
    requires StackAt(m, stack) && m.unbroken && 1 <= j < STACK_PAGES
    ensures |stack| == STACK_PAGES && stack[j] + (STACK_PAGES - 1 - j) == stack[STACK_PAGES - 1]
    decreases STACK_PAGES - j
  {
    hide StackPageIs;
    if j < STACK_PAGES - 1 { StackCloses(m, stack, j + 1); }
  }

  lemma StackOwned(m: Memory, all: set<Frame>, stack: seq<Frame>, j: nat)
    requires m.Accounts(all, {}) && StackAt(m, stack) && j < STACK_PAGES
    ensures |stack| == STACK_PAGES && stack[j] in all && stack[j] != m.dir.root
    ensures forall i :: i in m.dir.tables ==> m.dir.tables[i] != stack[j] && m.dir.tables[i] in all
    ensures m.dir.root in all
  {
    hide KernelReady, Traced, Shaped, OneRun;
    assert StackPageIs(m.dir, m.kernel, j, stack[j]);
    assert Has(m.dir, m.kernel, Page(STACK_LOW / PAGE_SIZE + j)) && Has(m.dir, m.kernel, Root);
    forall i | i in m.dir.tables ensures m.dir.tables[i] != stack[j] && m.dir.tables[i] in all {
      assert Has(m.dir, m.kernel, Table(i));
    }
  }

  lemma SparedBeside(page: Frame, top: Frame, s: CString)
    requires |s| == PAGE_SIZE && page != top && page + 1 != top
    ensures R.Spared(page, (top + 1) * PAGE_SIZE, [s])
  {
    A.LongFootprint(s);
    hide A.Footprint;
  }

  /** When no two of the pages free before the load were neighbours, an argument of 4096 characters is lost. */
  lemma SparseMemoryLoses(m: Memory, f: File, eh: Ehdr, l: Libc, all: set<Frame>, stack: seq<Frame>, mem: seq<byte>,
                          s: CString)
    requires JustLoaded(m, f, eh, l, stack, mem) && m.Accounts(all, {}) && |s| == PAGE_SIZE
    requires forall p :: p in all ==> p + 1 !in all
    ensures var sp := SpaceOf(m.dir, m.kernel);
            && R.TOP_PAGE in sp && A.Footprint([s]) <= R.PhysicalTop(sp) <= |mem|
            && TablesSpared(m, R.PhysicalTop(sp), [s])
            && R.ReadArgs(A.Packed(mem, R.PhysicalTop(sp), [s]), sp, A.USER_STACK_VA - 16) != Some([s])
  {
    hide SpaceOf, FullImage, Seen, Holds, A.Footprint, A.Packed, R.ReadArgs, R.FreshStack, StackPageIs, R.Spared,
         StackAt;
    StackIsFresh(m, f, eh, l, stack, mem);
    var sp := SpaceOf(m.dir, m.kernel);
    R.LongArgumentIff(mem, sp, s);
    StackOwned(m, all, stack, STACK_PAGES - 1);
    StackOwned(m, all, stack, STACK_PAGES - 2);
    var top := stack[STACK_PAGES - 1];
    SparedBeside(m.dir.root, top, s);
    forall i | i in m.dir.tables ensures R.Spared(m.dir.tables[i], R.PhysicalTop(sp), [s]) {
      SparedBeside(m.dir.tables[i], top, s);
    }
  }
}
