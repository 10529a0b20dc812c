/** From the build to the running process: a program put into an image by mkfs.py, found by its path and loaded
    by the kernel, lies in memory byte for byte. */
module ImageToProcess {
  import opened Bytes
  import opened ElfFormat
  import opened FsImage
  import opened FsPaths
  import opened FsTheorems
  import opened LoaderTheorems
  import LoadImage

  /** The table as the kernel reads it from an image. */
  function Table(m: seq<byte>): seq<Entry>
    requires SUPER_SECTORS * SECTOR <= |m| && U32(m, 8) <= MAX_FILES
  {
    seq(U32(m, 8), i requires 0 <= i < U32(m, 8) => DecodeEntry(SlotBytes(m, i)))
  }

  /** The bytes of a file in an image whose sectors can all be read. */
  function FileAt(m: seq<byte>, e: Entry): LoadImage.File
    requires e.start * SECTOR + e.size <= |m|
  {
    LoadImage.File(m[e.start * SECTOR..e.start * SECTOR + e.size], {})
  }

  lemma TableIs(ds: seq<DirSpec>, fs: seq<FileSpec>)
    requires BuildOutcome(ds, fs).Image? && GoodNames(ds, fs) && |ds| + |fs| >= 1
    ensures var m := BuildOutcome(ds, fs).bytes;
            && SUPER_SECTORS * SECTOR <= |m| && U32(m, 8) == |ds| + |fs| <= MAX_FILES
            && Table(m) == AddAll(ds, fs).value.entries && Tree(Table(m))
  {
    hide BuildOutcome, AddAll, Tree, U32, DecodeEntry, GoodNames;
    OutcomeIs(ds, fs);
    TableIsThere(ds, fs, 0);
    var m := BuildOutcome(ds, fs).bytes;
    forall i | 0 <= i < |ds| + |fs| ensures DecodeEntry(SlotBytes(m, i)) == AddAll(ds, fs).value.entries[i] {
      TableIsThere(ds, fs, i);
    }
  }

  /** Program `k` of a built image, at its path, as a process: the kernel opens the path, finds the program's
      entry, reads its file, accepts it, starts at 0x40000000, and has the program's bytes there. */
  lemma ProgramRuns(ds: seq<DirSpec>, ps: seq<Program>, raws: seq<Raw>, fs: seq<DataFile>, k: nat, l: LoadImage.Libc,
                    i: nat, cwd: nat)
    requires SmallPrograms(ps) && k < |ps| && GoodNames(ds, AllFiles(ps, raws, fs))
    requires BuildOutcome(ds, AllFiles(ps, raws, fs)).Image?
    requires var es := AddAll(ds, AllFiles(ps, raws, fs)).value.entries;
             |ds| + k < |es| ==> Findable(es, |ds| + k)
    requires ENTRY + |ps[k].code| <= LoadImage.STACK_LOW && i < |ps[k].code| && LoadImage.GoodLibc(l)
    ensures var m := BuildOutcome(ds, AllFiles(ps, raws, fs)).bytes;
            && SUPER_SECTORS * SECTOR <= |m| && U32(m, 8) <= MAX_FILES && |ds| + k < |Table(m)|
            && Open(Table(m), PathOf(Table(m), |ds| + k), cwd) == Some(|ds| + k)
            && var e := Table(m)[|ds| + k];
            && e.start * SECTOR + e.size <= |m|
            && var f := FileAt(m, e);
            && LoadImage.Verdict(f) == 0 && LoadImage.Header(f) == Some(BuiltEhdr(ENTRY))
            && LoadImage.WindowsApart(f, BuiltEhdr(ENTRY), l)
            && ByteAt(LoadImage.FullImage(f, BuiltEhdr(ENTRY), l), ENTRY + i) == Some(ps[k].code[i])
  {
    hide BuildOutcome, AddAll, Tree, U32, DecodeEntry, GoodNames, Table, Open, PathOf, MakeElf, ByteAt,
         LoadImage.Verdict, LoadImage.Header, LoadImage.WindowsApart, LoadImage.FullImage, Findable, StartOf;
    var all := AllFiles(ps, raws, fs);
    assert all[k] == ProgramFile(ps[k]);
    TableIs(ds, all);
    FilesAreThere(ds, all, k);
    var m := BuildOutcome(ds, all).bytes;
    PathOpensIff(Table(m), |ds| + k, cwd);
    var f := FileAt(m, Table(m)[|ds| + k]);
    assert f == LoadImage.File(MakeElf(ps[k].code, ENTRY), {});
    LoaderUndoesBuilder(f, ps[k].code, l, i);
  }
}
