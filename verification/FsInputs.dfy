/** What build_image makes of its input lists (mkfs.py): when there is an image, where each entry hangs, and that
    every program, raw file and data file is in it. */
module FsInputs {
  import opened Bytes
  import opened ElfFormat
  import opened FsImage
  import opened FsTheorems

  // ---- parents -----------------------------------------------------------------------------

  /** The last of the first `k` directories with that name. */
  function LastDir(ds: seq<DirSpec>, k: nat, name: Name): (r: Option<nat>)
    requires k <= |ds|
    ensures r.Some? ==> r.value < k && ds[r.value].name == name && forall j :: r.value < j < k ==> ds[j].name != name
    ensures r.None? ==> forall j :: 0 <= j < k ==> ds[j].name != name
  {
    if k == 0 then None else if ds[k - 1].name == name then Some(k - 1) else LastDir(ds, k - 1, name)
  }

  ghost predicate IndexIs(b: Build, ds: seq<DirSpec>, k: nat)
    requires k <= |ds|
  {
    forall n :: if n in b.index then LastDir(ds, k, n) == Some(b.index[n]) else LastDir(ds, k, n).None?
  }

  /** No name, or that of one of the first `k` directories. */
  predicate Known(ds: seq<DirSpec>, k: nat, parent: Option<Name>)
    requires k <= |ds|
  {
    parent.Some? ==> exists j :: 0 <= j < k && ds[j].name == parent.value
  }

  lemma KnownIff(b: Build, ds: seq<DirSpec>, k: nat, parent: Option<Name>)
    requires k <= |ds| && IndexIs(b, ds, k)
    ensures ParentIndex(b, parent).Some? <==> Known(ds, k, parent)
    ensures ParentIndex(b, parent) ==
            if parent.None? then Some(255) else LastDir(ds, k, parent.value)
  {
    if parent.Some? { assert parent.value in b.index || LastDir(ds, k, parent.value).None?; }
  }

  /** One directory more. */
  lemma DirIndexed(b: Build, ds: seq<DirSpec>, k: nat)
    requires k < |ds| && IndexIs(b, ds, k) && |b.entries| == k
    ensures AddDir(b, ds[k]).Some? <==> Known(ds, k, ds[k].parent)
    ensures AddDir(b, ds[k]).Some? ==>
              IndexIs(AddDir(b, ds[k]).value, ds, k + 1) && |AddDir(b, ds[k]).value.entries| == k + 1
  {
    KnownIff(b, ds, k, ds[k].parent);
    hide Known;
  }

  lemma {:induction false} DirsIndexed(ds: seq<DirSpec>, k: nat)
    requires k <= |ds|
    ensures AddDirs(ds[..k]).Some? <==> forall i :: 0 <= i < k ==> Known(ds, i, ds[i].parent)
    ensures AddDirs(ds[..k]).Some? ==> IndexIs(AddDirs(ds[..k]).value, ds, k)
    ensures AddDirs(ds[..k]).Some? ==> |AddDirs(ds[..k]).value.entries| == k
  {
    hide *;
    if k > 0 {
      DirsIndexed(ds, k - 1);
      PrefixDirs(ds, k - 1);
      var b := AddDirs(ds[..k - 1]);
      if b.Some? { DirIndexed(b.value, ds, k - 1); }
    } else {
      NoDirs(ds);
    }
  }

  lemma NoDirs(ds: seq<DirSpec>)
    ensures AddDirs(ds[..0]).Some? && IndexIs(AddDirs(ds[..0]).value, ds, 0)
    ensures |AddDirs(ds[..0]).value.entries| == 0
  {
  }

  lemma SameIndex(a: Build, b: Build, ds: seq<DirSpec>)
    requires IndexIs(a, ds, |ds|) && b.index == a.index
    ensures IndexIs(b, ds, |ds|)
  {
  }

  lemma {:induction false} FilesKnown(base: Build, ds: seq<DirSpec>, fs: seq<FileSpec>, k: nat)
    requires k <= |fs| && IndexIs(base, ds, |ds|)
    ensures AddFiles(base, fs[..k]).Some? <==> forall i :: 0 <= i < k ==> Known(ds, |ds|, fs[i].parent)
    ensures AddFiles(base, fs[..k]).Some? ==> AddFiles(base, fs[..k]).value.index == base.index
  {
    if k > 0 {
      hide AddFiles, Known, IndexIs;
      FilesKnown(base, ds, fs, k - 1);
      PrefixFiles(base, fs, k - 1);
      var b := AddFiles(base, fs[..k - 1]);
      if b.Some? {
        SameIndex(base, b.value, ds);
        KnownIff(b.value, ds, |ds|, fs[k - 1].parent);
      }
    }
  }

  /** Every parent named is a directory listed before. */
  predicate ParentsKnown(ds: seq<DirSpec>, fs: seq<FileSpec>) {
    && (forall i :: 0 <= i < |ds| ==> Known(ds, i, ds[i].parent))
    && (forall i :: 0 <= i < |fs| ==> Known(ds, |ds|, fs[i].parent))
  }

  lemma AddedIff(ds: seq<DirSpec>, fs: seq<FileSpec>)
    ensures AddAll(ds, fs).Some? <==> ParentsKnown(ds, fs)
    ensures AddDirs(ds).Some? ==> IndexIs(AddDirs(ds).value, ds, |ds|)
  {
    assert ds[..|ds|] == ds && fs[..|fs|] == fs;
    hide AddDirs, AddFiles, Known, IndexIs;
    DirsIndexed(ds, |ds|);
    if AddDirs(ds).Some? { FilesKnown(AddDirs(ds).value, ds, fs, |fs|); }
  }

  // ---- when there is an image --------------------------------------------------------------

  predicate Ascii(n: Name) {
    forall i :: 0 <= i < |n| ==> n[i] < 128
  }

  /** The values of a directory and of a file fit their fields: ASCII names, and sizes and places of 32 bits. */
  predicate DirFits(ds: seq<DirSpec>, i: nat)
    requires i < |ds|
  {
    Ascii(ds[i].name)
  }

  predicate FileFits(fs: seq<FileSpec>, i: nat)
    requires i < |fs|
  {
    Ascii(fs[i].name) && |fs[i].data| < 0x1_0000_0000 && StartOf(fs, i) < 0x1_0000_0000
  }

  predicate FitsFields(ds: seq<DirSpec>, fs: seq<FileSpec>) {
    (forall i :: 0 <= i < |ds| ==> DirFits(ds, i)) && (forall i :: 0 <= i < |fs| ==> FileFits(fs, i))
  }

  /** Where a directory hangs. */
  lemma DirParent(ds: seq<DirSpec>, fs: seq<FileSpec>, i: nat)
    requires AddAll(ds, fs).Some? && i < |ds|
    ensures AddDirs(ds).Some? && |AddDirs(ds).value.entries| == |ds|
    ensures var p := AddDirs(ds).value.entries[i].parent;
            if ds[i].parent.None? then p == 255 else LastDir(ds, i, ds[i].parent.value) == Some(p)
  {
    assert ds[..|ds|] == ds;
    hide AddDirs, AddFiles;
    DirsHangAt(ds, i, |ds|);
  }

  lemma {:induction false} DirsHangAt(ds: seq<DirSpec>, i: nat, k: nat)
    requires i < k <= |ds| && AddDirs(ds[..k]).Some?
    ensures |AddDirs(ds[..k]).value.entries| == k
    ensures var p := AddDirs(ds[..k]).value.entries[i].parent;
            if ds[i].parent.None? then p == 255 else LastDir(ds, i, ds[i].parent.value) == Some(p)
  {
    DirsIndexed(ds, k - 1);
    DirsIndexed(ds, k);
    PrefixDirs(ds, k - 1);
    hide AddDirs;
    var b := AddDirs(ds[..k - 1]).value;
    if i < k - 1 {
      DirsHangAt(ds, i, k - 1);
      assert AddDirs(ds[..k]).value.entries[i] == b.entries[i];
    } else {
      KnownIff(b, ds, k - 1, ds[i].parent);
    }
  }

  lemma DirPackable(ds: seq<DirSpec>, fs: seq<FileSpec>, i: nat)
    requires AddAll(ds, fs).Some? && |ds| + |fs| <= 256 && i < |ds|
    ensures |AddAll(ds, fs).value.entries| == |ds| + |fs|
    ensures Packable(AddAll(ds, fs).value.entries[i]) <==> DirFits(ds, i)
  {
    hide AddAll, AddDirs, AddFiles, StartOf, Tree;
    AllAdded(ds, fs);
    DirNames(ds);
    DirParent(ds, fs, i);
    assert AddAll(ds, fs).value.entries[i] == AddDirs(ds).value.entries[i];
  }

  lemma FilePackable(ds: seq<DirSpec>, fs: seq<FileSpec>, i: nat)
    requires AddAll(ds, fs).Some? && |ds| + |fs| <= 256 && i < |fs|
    ensures |AddAll(ds, fs).value.entries| == |ds| + |fs|
    ensures Packable(AddAll(ds, fs).value.entries[|ds| + i]) <==> FileFits(fs, i)
  {
    hide AddAll, AddDirs, AddFiles, StartOf, Tree, IndexIs, ParentsKnown;
    AllAdded(ds, fs);
    AddedIff(ds, fs);
    var base := AddDirs(ds).value;
    assert FileEntry(AddAll(ds, fs).value, base, fs, i);
    KnownIff(base, ds, |ds|, fs[i].parent);
  }

  lemma PackableIff(ds: seq<DirSpec>, fs: seq<FileSpec>)
    requires AddAll(ds, fs).Some? && |ds| + |fs| <= 256 && |AddAll(ds, fs).value.entries| == |ds| + |fs|
    ensures AllPackable(AddAll(ds, fs).value.entries) <==> FitsFields(ds, fs)
  {
    hide AddAll, Packable, DirFits, FileFits;
    var e := AddAll(ds, fs).value.entries;
    forall i | 0 <= i < |ds| ensures Packable(e[i]) <==> DirFits(ds, i) {
      DirPackable(ds, fs, i);
    }
    forall i | |ds| <= i < |e| ensures Packable(e[i]) <==> FileFits(fs, i - |ds|) {
      FilePackable(ds, fs, i - |ds|);
    }
    if AllPackable(e) {
      forall i | 0 <= i < |fs| ensures FileFits(fs, i) {
        FilePackable(ds, fs, i);
      }
    }
  }

  /** build_image fails because of a parent that is not a directory listed before (a KeyError), else because of
      more than 256 entries, else because a value does not fit its field, and for no other reason. */
  lemma OutcomeIff(ds: seq<DirSpec>, fs: seq<FileSpec>)
    ensures BuildOutcome(ds, fs).UnknownParent? <==> !ParentsKnown(ds, fs)
    ensures BuildOutcome(ds, fs).TooManyEntries? <==> ParentsKnown(ds, fs) && |ds| + |fs| > 256
    ensures BuildOutcome(ds, fs).Image? <==> ParentsKnown(ds, fs) && |ds| + |fs| <= 256 && FitsFields(ds, fs)
  {
    AddedIff(ds, fs);
    hide AddAll, ParentsKnown, AllPackable, FitsFields, ImageBytes, IndexIs;
    if AddAll(ds, fs).Some? {
      AllAdded(ds, fs);
      if |ds| + |fs| <= 256 { PackableIff(ds, fs); }
      hide AddDirs;
    }
  }

  // ---- what is in it -----------------------------------------------------------------------

  /** The parent of an entry: 255, the root, or the last directory of the name given, among those before it. */
  predicate HangsIn(e: Entry, ds: seq<DirSpec>, k: nat, parent: Option<Name>)
    requires k <= |ds|
  {
    if parent.None? then e.parent == 255
    else e.parent < k && ds[e.parent].name == parent.value &&
         forall j :: e.parent < j < k ==> ds[j].name != parent.value
  }

  /** Every directory of the list is an entry, in order, of type 2 and with mode 0755, and every entry hangs where
      the inputs put it. */
  lemma EntriesHang(ds: seq<DirSpec>, fs: seq<FileSpec>, i: nat)
    requires BuildOutcome(ds, fs).Image? && i < |ds| + |fs|
    ensures var e := AddAll(ds, fs).value.entries;
            && |e| == |ds| + |fs|
            && (if i < |ds| then HangsIn(e[i], ds, i, ds[i].parent) else HangsIn(e[i], ds, |ds|, fs[i - |ds|].parent))
            && (i < |ds| ==> e[i] == Entry(ds[i].name, 0, 0, 2, e[i].parent, 0x1ED))
  {
    hide ImageBytes, AddAll, AddDirs, AddFiles, Tree, StartOf, Packable, BuildOutcome;
    OutcomeIs(ds, fs);
    AllAdded(ds, fs);
    DirNames(ds);
    AddedIff(ds, fs);
    var base, b := AddDirs(ds).value, AddAll(ds, fs).value;
    if i < |ds| {
      DirParent(ds, fs, i);
    } else {
      assert FileEntry(b, base, fs, i - |ds|);
      KnownIff(base, ds, |ds|, fs[i - |ds|].parent);
    }
  }

  /** Entry `e` of image `m` is a file of that name and mode, under that parent, and its bytes are `data`. */
  predicate Stored(m: seq<byte>, e: Entry, ds: seq<DirSpec>, name: Name, parent: Option<Name>, mode: uint16,
                   data: seq<byte>)
  {
    && e.name == name && e.kind == 1 && e.mode == mode && e.size == |data| && HangsIn(e, ds, |ds|, parent)
    && e.start >= 17 && e.start * 512 + e.size <= |m| && m[e.start * 512..e.start * 512 + e.size] == data
  }

  lemma SpecIsStored(ds: seq<DirSpec>, fs: seq<FileSpec>, k: nat)
    requires BuildOutcome(ds, fs).Image? && k < |fs|
    ensures AddAll(ds, fs).Some? && |AddAll(ds, fs).value.entries| == |ds| + |fs|
    ensures Stored(BuildOutcome(ds, fs).bytes, AddAll(ds, fs).value.entries[|ds| + k], ds, fs[k].name, fs[k].parent,
                   fs[k].mode, fs[k].data)
  {
    hide AddAll, BuildOutcome, StartOf, HangsIn;
    OutcomeIs(ds, fs);
    FilesAreThere(ds, fs, k);
    EntriesHang(ds, fs, |ds| + k);
    StartGrows(fs, 0, k);
  }

  /** Every file of the three input lists is in the image, byte for byte, in the order of the lists behind the
      directories: programs wrapped for 0x40000000, with mode 0755; raw files as they are, with mode 0755; data
      files as they are, with the mode given or 0644. */
  lemma InputsAreThere(ds: seq<DirSpec>, ps: seq<Program>, raws: seq<Raw>, fs: seq<DataFile>)
    requires SmallPrograms(ps) && BuildOutcome(ds, AllFiles(ps, raws, fs)).Image?
    ensures AddAll(ds, AllFiles(ps, raws, fs)).Some?
    ensures var all := AllFiles(ps, raws, fs);
            var m, e := BuildOutcome(ds, all).bytes, AddAll(ds, all).value.entries;
            && |e| == |ds| + |ps| + |raws| + |fs|
            && (forall k :: 0 <= k < |ps| ==>
                  Stored(m, e[|ds| + k], ds, ps[k].name, ps[k].parent, 0x1ED, MakeElf(ps[k].code, 0x4000_0000)))
            && (forall k :: 0 <= k < |raws| ==>
                  Stored(m, e[|ds| + |ps| + k], ds, raws[k].name, raws[k].parent, 0x1ED, raws[k].data))
            && (forall k :: 0 <= k < |fs| ==>
                  Stored(m, e[|ds| + |ps| + |raws| + k], ds, fs[k].name, fs[k].parent,
                         if fs[k].mode.Some? then fs[k].mode.value else 0x1A4, fs[k].data))
  {
    hide AddAll, BuildOutcome, Stored, MakeElf;
    var all := AllFiles(ps, raws, fs);
    OutcomeIs(ds, all);
    if all != [] { SpecIsStored(ds, all, 0); } else { NothingAdded(ds, all); }
    forall k | 0 <= k < |ps|
      ensures Stored(BuildOutcome(ds, all).bytes, AddAll(ds, all).value.entries[|ds| + k], ds, ps[k].name,
                     ps[k].parent, 0x1ED, MakeElf(ps[k].code, 0x4000_0000))
    {
      assert all[k] == ProgramFile(ps[k]);
      SpecIsStored(ds, all, k);
    }
    forall k | 0 <= k < |raws|
      ensures Stored(BuildOutcome(ds, all).bytes, AddAll(ds, all).value.entries[|ds| + |ps| + k], ds, raws[k].name,
                     raws[k].parent, 0x1ED, raws[k].data)
    {
      assert all[|ps| + k] == RawFile(raws[k]);
      SpecIsStored(ds, all, |ps| + k);
    }
    forall k | 0 <= k < |fs|
      ensures Stored(BuildOutcome(ds, all).bytes, AddAll(ds, all).value.entries[|ds| + |ps| + |raws| + k], ds,
                     fs[k].name, fs[k].parent, if fs[k].mode.Some? then fs[k].mode.value else 0x1A4, fs[k].data)
    {
      assert all[|ps| + |raws| + k] == DataSpec(fs[k]);
      SpecIsStored(ds, all, |ps| + |raws| + k);
    }
  }

  lemma NothingAdded(ds: seq<DirSpec>, fs: seq<FileSpec>)
    requires fs == [] && AddAll(ds, fs).Some?
    ensures |AddAll(ds, fs).value.entries| == |ds|
  {
    hide AddAll, AddDirs;
    AllAdded(ds, fs);
  }
}
