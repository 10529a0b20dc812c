/** What the kernel finds in an image that build_image wrote: every entry, every file byte, and a way from
    the root to every entry. */
module FsTheorems {
  import opened Bytes
  import opened FsImage

  // ---- one entry ---------------------------------------------------------------------------

  lemma {:induction false} NameLengthIs(b: seq<byte>, k: nat)
    requires k <= |b| && (forall i :: 0 <= i < k ==> b[i] != 0) && (k < |b| ==> b[k] == 0)
    ensures NameLength(b) == k
  {
    if k > 0 { NameLengthIs(b[1..], k - 1); }
  }

  /** What the 16-byte field keeps of a name: its first 16 characters, up to a NUL. */
  function KeptName(n: Name): (r: Name)
    ensures |r| <= NAME_MAX && |r| <= |n| && r == n[..|r|] && 0 !in r
    ensures |r| < NAME_MAX && |r| < |n| ==> n[|r|] == 0
  {
    KeptFrom(n, 0)
  }

  function KeptFrom(n: Name, k: nat): (r: Name)
    requires k <= |n| && k <= NAME_MAX && 0 !in n[..k]
    ensures k <= |r| <= NAME_MAX && |r| <= |n| && r == n[..|r|] && 0 !in r
    ensures |r| < NAME_MAX && |r| < |n| ==> n[|r|] == 0
    decreases NAME_MAX - k
  {
    if k == |n| || k == NAME_MAX || n[k] == 0 then n[..k]
    else
      assert n[..k + 1] == n[..k] + [n[k]];
      KeptFrom(n, k + 1)
  }

  lemma NameReadsBack(n: Name)
    requires IsAscii(n)
    ensures NameLength(NameBytes(n)) == |KeptName(n)| && NameBytes(n)[..|KeptName(n)|] == KeptName(n)
  {
    var r := KeptName(n);
    assert forall i :: 0 <= i < |r| ==> r[i] == n[i] && r[i] in r;
    NameLengthIs(NameBytes(n), |r|);
  }

  /** A name survives the field exactly when it is not too long and holds no NUL. */
  lemma KeptIff(n: Name)
    ensures KeptName(n) == n <==> |n| <= NAME_MAX && 0 !in n
  {
    assert forall i :: 0 <= i < |n| ==> n[i] in n;
  }

  lemma EntryPeels(e: Entry)
    requires Packable(e)
    ensures var b := EncodeEntry(e);
            && |b| == ENTRY_SIZE && b[..NAME_MAX] == NameBytes(e.name)
            && b[16..20] == Le(e.start, 4) && b[20..24] == Le(e.size, 4)
            && b[24..26] == [e.kind, e.parent as byte] && b[26..28] == b[28..30] == Le(0, 2)
            && b[30..32] == Le(e.mode, 2)
  {
    hide Le, NameBytes;
    var b := EncodeEntry(e);
    var t4 := Le(0, 2) + Le(e.mode, 2);
    var t3 := Le(0, 2) + t4;
    var t2 := [e.kind, e.parent as byte] + t3;
    var t1 := Le(e.size, 4) + t2;
    var t0 := Le(e.start, 4) + t1;
    assert b[0..] == NameBytes(e.name) + t0;
    Peel(b, 0, NameBytes(e.name), t0);
    Peel(b, 16, Le(e.start, 4), t1);
    Peel(b, 20, Le(e.size, 4), t2);
    Peel(b, 24, [e.kind, e.parent as byte], t3);
    Peel(b, 26, Le(0, 2), t4);
    Peel(b, 28, Le(0, 2), Le(e.mode, 2));
    assert b[30..32] == b[30..];
  }

  /** The kernel reads back type, parent, size, place and mode of an encoded entry, the super-user as its owner
      and group, and of its name what the field keeps. */
  lemma EntryReadsBack(e: Entry)
    requires Packable(e)
    ensures |EncodeEntry(e)| == 32 && U16(EncodeEntry(e), 26) == 0 && U16(EncodeEntry(e), 28) == 0
    ensures DecodeEntry(EncodeEntry(e)) == e.(name := KeptName(e.name))
  {
    var b := EncodeEntry(e);
    EntryPeels(e);
    NameReadsBack(e.name);
    hide Le, NameBytes, EncodeEntry, U16, U32, NameLength, KeptName;
    U32Of(b, 16, e.start);
    U32Of(b, 20, e.size);
    U16Of(b, 26, 0);
    U16Of(b, 28, 0);
    U16Of(b, 30, e.mode);
    assert b[24] == b[24..26][0] && b[25] == b[24..26][1];
    assert b[..|KeptName(e.name)|] == b[..NAME_MAX][..|KeptName(e.name)|];
  }

  /** An entry survives the round trip exactly when its name fits the field. */
  lemma EntryRoundTripIff(e: Entry)
    requires Packable(e)
    ensures |EncodeEntry(e)| == ENTRY_SIZE
    ensures DecodeEntry(EncodeEntry(e)) == e <==> GoodName(e.name)
  {
    hide EncodeEntry, DecodeEntry, KeptName;
    EntryReadsBack(e);
    KeptIff(e.name);
  }

  // ---- the table ---------------------------------------------------------------------------

  lemma {:induction false} TableSize(es: seq<Entry>)
    requires AllPackable(es)
    ensures |EntriesBytes(es)| == ENTRY_SIZE * |es|
  {
    if es != [] {
      EntryPeels(es[0]);
      TableSize(es[1..]);
    }
  }

  lemma EntriesStep(es: seq<Entry>)
    requires es != [] && AllPackable(es)
    ensures EntriesBytes(es) == EncodeEntry(es[0]) + EntriesBytes(es[1..])
  {
  }

  lemma {:induction false} TableAt(m: seq<byte>, p: nat, es: seq<Entry>, rest: seq<byte>, i: nat)
    requires AllPackable(es) && p <= |m| && m[p..] == EntriesBytes(es) + rest && i < |es|
    ensures p + ENTRY_SIZE * i + ENTRY_SIZE <= |m|
    ensures m[p + ENTRY_SIZE * i..p + ENTRY_SIZE * i + ENTRY_SIZE] == EncodeEntry(es[i])
    decreases i
  {
    hide EntriesBytes, EncodeEntry, Packable;
    var head, tail := EncodeEntry(es[0]), EntriesBytes(es[1..]);
    EntryPeels(es[0]);
    EntriesStep(es);
    assert (head + tail) + rest == head + (tail + rest);
    Peel(m, p, head, tail + rest);
    if i > 0 {
      TableAt(m, p + ENTRY_SIZE, es[1..], rest, i - 1);
      assert p + ENTRY_SIZE + ENTRY_SIZE * (i - 1) == p + ENTRY_SIZE * i;
    }
  }

  /** The parts of an image, at their places. */
  lemma ImageParts(es: seq<Entry>, blobs: seq<seq<byte>>)
    requires |es| <= MAX_FILES && AllPackable(es)
    ensures var m := ImageBytes(es, blobs);
            && SUPER_SECTORS * SECTOR <= |m| && m[..8] == Magic() && U32(m, 8) == |es|
            && (exists rest :: m[SECTOR..] == EntriesBytes(es) + rest)
            && m[SECTOR + ENTRY_SIZE * |es|..SUPER_SECTORS * SECTOR] == Zeros(ENTRY_SIZE * (MAX_FILES - |es|))
            && m[SUPER_SECTORS * SECTOR..] == Concat(blobs)
  {
    var m, free := ImageBytes(es, blobs), Zeros(ENTRY_SIZE * (MAX_FILES - |es|));
    TableSize(es);
    hide EntriesBytes, Concat, Le, Zeros, Magic, U32, Packable;
    var t4 := free + Concat(blobs);
    var t3 := EntriesBytes(es) + t4;
    var t2 := Zeros(SECTOR - 12) + t3;
    var t1 := Le(|es|, 4) + t2;
    assert m[0..] == Magic() + t1;
    Peel(m, 0, Magic(), t1);
    Peel(m, 8, Le(|es|, 4), t2);
    Peel(m, 12, Zeros(SECTOR - 12), t3);
    Peel(m, SECTOR, EntriesBytes(es), t4);
    Peel(m, SECTOR + ENTRY_SIZE * |es|, free, Concat(blobs));
    U32Of(m, 8, |es|);
  }

  /** The bytes of table slot `i`. */
  function SlotBytes(m: seq<byte>, i: nat): seq<byte>
    requires SECTOR + ENTRY_SIZE * i + ENTRY_SIZE <= |m|
  {
    m[SECTOR + ENTRY_SIZE * i..SECTOR + ENTRY_SIZE * i + ENTRY_SIZE]
  }

  /** The bytes of an ASCII text. */
  function TextBytes(s: string): (b: seq<byte>)
    requires forall i :: 0 <= i < |s| ==> s[i] as int < 128
    ensures |b| == |s|
  {
    seq(|s|, i requires 0 <= i < |s| => s[i] as int)
  }

  /** Decoding the table gives back the entries; the slots after them are free. */
  lemma TableRoundTrip(es: seq<Entry>, blobs: seq<seq<byte>>, i: nat)
    requires |es| <= MAX_FILES && AllPackable(es) && i < MAX_FILES && (i < |es| ==> GoodName(es[i].name))
    ensures var m := ImageBytes(es, blobs);
            && 17 * 512 <= |m| && U32(m, 8) == |es|
            && m[..8] == TextBytes("ADVENTFS")
            && SlotBytes(m, i) == m[512 + 32 * i..544 + 32 * i]
            && (if i < |es| then |SlotBytes(m, i)| == ENTRY_SIZE && DecodeEntry(SlotBytes(m, i)) == es[i]
                else SlotBytes(m, i) == Zeros(ENTRY_SIZE))
  {
    hide ImageBytes, EntriesBytes, EncodeEntry, DecodeEntry, U32, Packable, Concat, Zeros;
    ImageParts(es, blobs);
    var m := ImageBytes(es, blobs);
    if i < |es| {
      var rest :| m[SECTOR..] == EntriesBytes(es) + rest;
      TableAt(m, SECTOR, es, rest, i);
      EntryRoundTripIff(es[i]);
    } else {
      ZeroSlice(m, SECTOR + ENTRY_SIZE * |es|, SUPER_SECTORS * SECTOR,
                SECTOR + ENTRY_SIZE * i, SECTOR + ENTRY_SIZE * (i + 1));
    }
  }

  lemma ZeroSlice(m: seq<byte>, a: nat, b: nat, c: nat, d: nat)
    requires a <= c <= d <= b <= |m| && m[a..b] == Zeros(b - a)
    ensures m[c..d] == Zeros(d - c)
  {
    forall k | 0 <= k < d - c ensures m[c..d][k] == 0 {
      assert m[c..d][k] == m[a..b][c - a + k];
    }
  }

  // ---- the files ---------------------------------------------------------------------------

  /** The sector where the `k`-th file starts: right after the files before it, the first one after the
      table. */
  function StartOf(fs: seq<FileSpec>, k: nat): nat
    requires k <= |fs|
  {
    if k == 0 then 17 else StartOf(fs, k - 1) + (|fs[k - 1].data| + 511) / 512
  }

  /** What the table and the file area hold after `k` files. */
  ghost predicate FilesAdded(b: Build, base: Build, fs: seq<FileSpec>, k: nat)
    requires k <= |fs|
  {
    && |b.entries| == |base.entries| + k && |b.blobs| == k && b.index == base.index
    && b.next == StartOf(fs, k)
    && (forall i :: 0 <= i < |base.entries| ==> b.entries[i] == base.entries[i])
    && (forall j :: 0 <= j < k ==> FileEntry(b, base, fs, j))
  }

  ghost predicate FileEntry(b: Build, base: Build, fs: seq<FileSpec>, j: nat)
    requires j < |fs| && |base.entries| + j < |b.entries| && j < |b.blobs|
  {
    var e, p := b.entries[|base.entries| + j], ParentIndex(base, fs[j].parent);
    && p.Some? && e == Entry(fs[j].name, StartOf(fs, j), |fs[j].data|, TYPE_FILE, p.value, fs[j].mode)
    && b.blobs[j] == PadToSector(fs[j].data)
  }

  lemma {:induction false} FilesAreAdded(base: Build, fs: seq<FileSpec>, k: nat)
    requires k <= |fs| && base.blobs == [] && base.next == SUPER_SECTORS && AddFiles(base, fs[..k]).Some?
    ensures FilesAdded(AddFiles(base, fs[..k]).value, base, fs, k)
  {
    if k > 0 {
      PrefixFiles(base, fs, k - 1);
      FilesAreAdded(base, fs, k - 1);
      var c, b := AddFiles(base, fs[..k - 1]).value, AddFiles(base, fs[..k]).value;
      assert b == AddFile(c, fs[k - 1]).value;
      hide AddFiles, StartOf;
      StartStep(fs, k);
      forall j | 0 <= j < k ensures FileEntry(b, base, fs, j) {
        if j < k - 1 { assert FileEntry(c, base, fs, j); }
      }
    }
  }

  lemma StartStep(fs: seq<FileSpec>, k: nat)
    requires 0 < k <= |fs|
    ensures StartOf(fs, k) == StartOf(fs, k - 1) + Sectors(|fs[k - 1].data|)
  {
  }

  lemma ConcatStep(blobs: seq<seq<byte>>, k: nat)
    requires k < |blobs|
    ensures Concat(blobs[k..]) == blobs[k] + Concat(blobs[k + 1..])
  {
    assert blobs[k..][0] == blobs[k] && blobs[k..][1..] == blobs[k + 1..];
  }

  lemma {:induction false} BlobAt(m: seq<byte>, p: nat, fs: seq<FileSpec>, blobs: seq<seq<byte>>, k: nat, j: nat)
    requires k <= j < |fs| == |blobs| && p <= |m| && p == StartOf(fs, k) * SECTOR
    requires forall i :: 0 <= i < |blobs| ==> blobs[i] == PadToSector(fs[i].data)
    requires m[p..] == Concat(blobs[k..])
    ensures StartOf(fs, j) * SECTOR + |fs[j].data| <= |m|
    ensures m[StartOf(fs, j) * SECTOR..StartOf(fs, j) * SECTOR + |fs[j].data|] == fs[j].data
    decreases j - k
  {
    hide Concat, PadToSector;
    ConcatStep(blobs, k);
    Peel(m, p, blobs[k], Concat(blobs[k + 1..]));
    if k < j {
      assert p + |blobs[k]| == StartOf(fs, k + 1) * SECTOR;
      BlobAt(m, p + |blobs[k]|, fs, blobs, k + 1, j);
    } else {
      assert m[p..p + |fs[j].data|] == m[p..p + |blobs[k]|][..|fs[j].data|];
    }
  }

  lemma {:induction false} StartGrows(fs: seq<FileSpec>, j: nat, k: nat)
    requires j <= k <= |fs|
    ensures StartOf(fs, j) <= StartOf(fs, k) && StartOf(fs, j) >= SUPER_SECTORS
    ensures j < k ==> StartOf(fs, j) + Sectors(|fs[j].data|) <= StartOf(fs, k)
    decreases k
  {
    if j < k { StartGrows(fs, j, k - 1); } else if k > 0 { StartGrows(fs, k - 1, k - 1); }
  }

  // ---- the directory tree ------------------------------------------------------------------

  /** Every parent link is the root mark or leads to an earlier directory. */
  ghost predicate Tree(es: seq<Entry>) {
    forall i :: 0 <= i < |es| ==> LinkOk(es, i)
  }

  ghost predicate LinkOk(es: seq<Entry>, i: nat)
    requires i < |es|
  {
    es[i].parent == ROOT || (es[i].parent < i && es[es[i].parent].kind == TYPE_DIR)
  }

  /** The index leads to directories of the right name. */
  ghost predicate IndexOk(b: Build) {
    forall n :: n in b.index ==>
      b.index[n] < |b.entries| && b.entries[b.index[n]].kind == TYPE_DIR && b.entries[b.index[n]].name == n
  }

  lemma LinkKept(es: seq<Entry>, e: Entry, i: nat)
    requires i < |es| && LinkOk(es, i)
    ensures LinkOk(es + [e], i)
  {
  }

  lemma {:induction false} DirsAreTree(ds: seq<DirSpec>)
    requires AddDirs(ds).Some?
    ensures var b := AddDirs(ds).value;
            Tree(b.entries) && IndexOk(b) && b.blobs == [] && b.next == SUPER_SECTORS && |b.entries| == |ds|
  {
    if ds != [] {
      var n := |ds| - 1;
      DirsAreTree(ds[..n]);
      var c, b := AddDirs(ds[..n]).value, AddDirs(ds).value;
      assert b == AddDir(c, ds[n]).value;
      hide AddDirs;
      forall i | 0 <= i < |b.entries| ensures LinkOk(b.entries, i) {
        if i < n {
          assert LinkOk(c.entries, i);
          LinkKept(c.entries, b.entries[n], i);
        }
      }
    }
  }

  /** Files keep the tree a tree. */
  lemma FilesKeepTree(base: Build, b: Build, fs: seq<FileSpec>)
    requires Tree(base.entries) && IndexOk(base) && FilesAdded(b, base, fs, |fs|)
    ensures Tree(b.entries)
  {
    var n := |base.entries|;
    forall i | 0 <= i < |b.entries| ensures LinkOk(b.entries, i) {
      if i < n {
        assert LinkOk(base.entries, i);
      } else {
        assert FileEntry(b, base, fs, i - n);
      }
    }
  }

  /** The entry reached after `k` parent links from `i`; the root is ROOT. */
  function Up(es: seq<Entry>, i: nat, k: nat): nat
    requires i < |es|
    decreases k
  {
    if k == 0 then i
    else
      var p := es[i].parent;
      if p == ROOT || p >= |es| then ROOT else Up(es, p, k - 1)
  }

  /** Following parent links from any entry reaches the root. */
  lemma {:induction false} ReachesRoot(es: seq<Entry>, i: nat) returns (k: nat)
    requires Tree(es) && i < |es| <= MAX_FILES
    ensures 1 <= k <= i + 1 && Up(es, i, k) == ROOT
    decreases i
  {
    assert LinkOk(es, i);
    if es[i].parent == ROOT {
      k := 1;
    } else {
      k := ReachesRoot(es, es[i].parent);
      k := k + 1;
    }
  }

  // ---- the whole image ---------------------------------------------------------------------

  ghost predicate GoodNames(ds: seq<DirSpec>, fs: seq<FileSpec>) {
    (forall i :: 0 <= i < |ds| ==> GoodName(ds[i].name)) && (forall i :: 0 <= i < |fs| ==> GoodName(fs[i].name))
  }

  /** The `k`-th file of an image: its table entry says where it is, and there it is, byte for byte; the files
      follow each other without gap or overlap from sector 17 on. */
  lemma FilesAreThere(ds: seq<DirSpec>, fs: seq<FileSpec>, k: nat)
    requires BuildOutcome(ds, fs).Image? && k < |fs|
    ensures var m, e := BuildOutcome(ds, fs).bytes, AddAll(ds, fs).value.entries;
            && |e| == |ds| + |fs|
            && e[|ds| + k].name == fs[k].name && e[|ds| + k].size == |fs[k].data| && e[|ds| + k].mode == fs[k].mode
            && e[|ds| + k].kind == 1 && e[|ds| + k].start == StartOf(fs, k)
            && StartOf(fs, k) * 512 + |fs[k].data| <= |m|
            && m[StartOf(fs, k) * 512..StartOf(fs, k) * 512 + |fs[k].data|] == fs[k].data
  {
    hide ImageBytes, AddAll, AddDirs, AddFiles, EntriesBytes, Concat, StartOf, Packable, BuildOutcome, U32, Magic;
    OutcomeIs(ds, fs);
    AllAdded(ds, fs);
    var base, b := AddDirs(ds).value, AddAll(ds, fs).value;
    assert FileEntry(b, base, fs, k);
    FileBytes(ImageBytes(b.entries, b.blobs), b, base, fs, k);
  }

  lemma OutcomeIs(ds: seq<DirSpec>, fs: seq<FileSpec>)
    requires BuildOutcome(ds, fs).Image?
    ensures AddAll(ds, fs).Some?
    ensures var b := AddAll(ds, fs).value;
            && |b.entries| <= MAX_FILES && AllPackable(b.entries)
            && BuildOutcome(ds, fs).bytes == ImageBytes(b.entries, b.blobs)
  {
  }

  /** How the table of a successful build comes about. */
  lemma AllAdded(ds: seq<DirSpec>, fs: seq<FileSpec>)
    requires AddAll(ds, fs).Some?
    ensures AddDirs(ds).Some?
    ensures var base, b := AddDirs(ds).value, AddAll(ds, fs).value;
            && |base.entries| == |ds| && FilesAdded(b, base, fs, |fs|) && Tree(b.entries)
  {
    hide AddDirs, AddFiles, FilesAdded, Tree, IndexOk;
    assert fs[..|fs|] == fs;
    DirsAreTree(ds);
    var base, b := AddDirs(ds).value, AddAll(ds, fs).value;
    FilesAreAdded(base, fs, |fs|);
    FilesKeepTree(base, b, fs);
  }

  lemma FileBytes(m: seq<byte>, b: Build, base: Build, fs: seq<FileSpec>, k: nat)
    requires FilesAdded(b, base, fs, |fs|) && k < |fs|
    requires |b.entries| <= MAX_FILES && AllPackable(b.entries) && m == ImageBytes(b.entries, b.blobs)
    ensures StartOf(fs, k) * SECTOR + |fs[k].data| <= |m|
    ensures m[StartOf(fs, k) * SECTOR..StartOf(fs, k) * SECTOR + |fs[k].data|] == fs[k].data
  {
    hide ImageBytes, EntriesBytes, Concat, StartOf, Packable, U32, Magic;
    ImageParts(b.entries, b.blobs);
    forall i | 0 <= i < |b.blobs| ensures b.blobs[i] == PadToSector(fs[i].data) {
      assert FileEntry(b, base, fs, i);
    }
    FirstStart(fs);
    assert b.blobs[0..] == b.blobs;
    BlobAt(m, SUPER_SECTORS * SECTOR, fs, b.blobs, 0, k);
  }

  lemma FirstStart(fs: seq<FileSpec>)
    ensures StartOf(fs, 0) == SUPER_SECTORS
  {
  }

  /** The parent links of an image form a tree, and decoding its table gives back the entries built. */
  lemma TableIsThere(ds: seq<DirSpec>, fs: seq<FileSpec>, i: nat)
    requires BuildOutcome(ds, fs).Image? && GoodNames(ds, fs)
    requires i < |ds| + |fs|
    ensures var m, e := BuildOutcome(ds, fs).bytes, AddAll(ds, fs).value.entries;
            && |e| == |ds| + |fs| <= MAX_FILES && Tree(e)
            && SUPER_SECTORS * SECTOR <= |m| && U32(m, 8) == |e|
            && |SlotBytes(m, i)| == ENTRY_SIZE && DecodeEntry(SlotBytes(m, i)) == e[i]
  {
    hide ImageBytes, AddAll, AddDirs, AddFiles, Tree, StartOf, Packable, EncodeEntry, DecodeEntry, U32, BuildOutcome,
         Magic;
    OutcomeIs(ds, fs);
    AllAdded(ds, fs);
    DirNames(ds);
    var base, b := AddDirs(ds).value, AddAll(ds, fs).value;
    if i >= |ds| { assert FileEntry(b, base, fs, i - |ds|); }
    TableRoundTrip(b.entries, b.blobs, i);
  }

  lemma {:induction false} DirNames(ds: seq<DirSpec>)
    requires AddDirs(ds).Some?
    ensures var e := AddDirs(ds).value.entries;
            |e| == |ds| && forall i :: 0 <= i < |ds| ==> e[i] == Entry(ds[i].name, 0, 0, 2, e[i].parent, 0x1ED)
  {
    if ds != [] {
      DirNames(ds[..|ds| - 1]);
    }
  }
}
