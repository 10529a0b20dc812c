/** The filesystem image build_image writes (mkfs.py) and how the kernel reads its table (kernel/fs.h,
    kernel/fs.c). */
module FsImage {
  import opened Bytes
  import opened ElfFormat

  const SECTOR := 512
  const USER_VA := 0x4000_0000
  const NAME_MAX := 16
  const MAX_FILES := 256
  const ENTRY_SIZE := 32
  const SUPER_SECTORS := 17

  const TYPE_FILE: byte := 1
  const TYPE_DIR: byte := 2
  const ROOT: byte := 0xFF

  const MODE_755: uint16 := 493
  const MODE_644: uint16 := 420

  /** A Python string, by code points. */
  type Name = seq<nat>

  predicate IsAscii(n: Name) {
    forall i :: 0 <= i < |n| ==> n[i] < 128
  }

  /** Names that survive the 16-byte field. */
  predicate GoodName(n: Name) {
    |n| <= NAME_MAX && IsAscii(n) && 0 !in n
  }

  // ---- inputs ------------------------------------------------------------------------------

  datatype DirSpec = DirSpec(name: Name, parent: Option<Name>)

  datatype FileSpec = FileSpec(name: Name, data: seq<byte>, parent: Option<Name>, mode: uint16)

  // ---- entries -----------------------------------------------------------------------------

  datatype Entry = Entry(name: Name, start: nat, size: nat, kind: byte, parent: nat, mode: uint16)

  /** The values struct.pack accepts. */
  predicate Packable(e: Entry) {
    IsAscii(e.name) && e.start < 0x1_0000_0000 && e.size < 0x1_0000_0000 && e.parent < 0x100
  }

  function NameBytes(n: Name): (b: seq<byte>)
    requires IsAscii(n)
    ensures |b| == NAME_MAX
    ensures forall i :: 0 <= i < NAME_MAX ==> b[i] == if i < |n| then n[i] else 0
  {
    seq(NAME_MAX, i requires 0 <= i < NAME_MAX => if i < |n| then n[i] else 0)
  }

  /** encode_entry. */
  function EncodeEntry(e: Entry): seq<byte>
    requires Packable(e)
  {
    NameBytes(e.name) + (Le(e.start, 4) + (Le(e.size, 4) + 
    ([e.kind, e.parent as byte] + (Le(0, 2) + (Le(0, 2) + Le(e.mode, 2))))))
  }

  /** The length of a NUL-padded name. */
  function NameLength(b: seq<byte>): (k: nat)
    ensures k <= |b| && (forall i :: 0 <= i < k ==> b[i] != 0) && (k < |b| ==> b[k] == 0)
  {
    if b == [] || b[0] == 0 then 0 else 1 + NameLength(b[1..])
  }

  /** A table entry as the kernel sees it. */
  function DecodeEntry(b: seq<byte>): Entry
    requires |b| == ENTRY_SIZE
  {
    Entry(b[..NameLength(b[..NAME_MAX])], U32(b, 16), U32(b, 20), b[24], b[25], U16(b, 30))
  }

  // ---- the image ---------------------------------------------------------------------------

  /** pad_to_sector. */
  function PadToSector(data: seq<byte>): (p: seq<byte>)
    ensures |p| % SECTOR == 0 && |p| == Sectors(|data|) * SECTOR
    ensures p[..|data|] == data && p[|data|..] == Zeros(|p| - |data|)
  {
    var rem := |data| % SECTOR;
    if rem != 0 then data + Zeros(SECTOR - rem) else data
  }

  function Sectors(n: nat): nat {
    (n + SECTOR - 1) / SECTOR
  }

  function EntriesBytes(es: seq<Entry>): seq<byte>
    requires forall i :: 0 <= i < |es| ==> Packable(es[i])
  {
    if es == [] then [] else EncodeEntry(es[0]) + EntriesBytes(es[1..])
  }

  function Magic(): (s: seq<byte>)
    ensures |s| == 8
  {
    [0x41, 0x44, 0x56, 0x45, 0x4E, 0x54, 0x46, 0x53]
  }

  function Concat(blobs: seq<seq<byte>>): seq<byte> {
    if blobs == [] then [] else blobs[0] + Concat(blobs[1..])
  }

  function ImageBytes(es: seq<Entry>, blobs: seq<seq<byte>>): seq<byte>
    requires |es| <= MAX_FILES && forall i :: 0 <= i < |es| ==> Packable(es[i])
  {
    Magic() + (Le(|es|, 4) + (Zeros(SECTOR - 12) + 
    (EntriesBytes(es) + (Zeros(ENTRY_SIZE * (MAX_FILES - |es|)) + Concat(blobs)))))
  }

  // ---- building ----------------------------------------------------------------------------

  /** What build_image accumulates: the table, the padded files, the next free sector, and the index of each
      directory name. */
  datatype Build = Build(entries: seq<Entry>, blobs: seq<seq<byte>>, next: nat, index: map<Name, nat>)

  function Start(): Build {
    Build([], [], SUPER_SECTORS, map[])
  }

  /** The parent's index; an unknown name is a KeyError. */
  function ParentIndex(b: Build, parent: Option<Name>): Option<nat> {
    match parent
    case None => Some(ROOT)
    case Some(n) => if n in b.index then Some(b.index[n]) else None
  }

  function AddDir(b: Build, d: DirSpec): Option<Build> {
    var p := ParentIndex(b, d.parent);
    if p.None? then None
    else Some(b.(index := b.index[d.name := |b.entries|],
                 entries := b.entries + [Entry(d.name, 0, 0, TYPE_DIR, p.value, MODE_755)]))
  }

  function AddFile(b: Build, f: FileSpec): Option<Build> {
    var p := ParentIndex(b, f.parent);
    if p.None? then None
    else Some(b.(entries := b.entries + [Entry(f.name, b.next, |f.data|, TYPE_FILE, p.value, f.mode)],
                 blobs := b.blobs + [PadToSector(f.data)],
                 next := b.next + Sectors(|f.data|)))
  }

  function AddDirs(ds: seq<DirSpec>): Option<Build> {
    if ds == [] then Some(Start())
    else
      var b := AddDirs(ds[..|ds| - 1]);
      if b.None? then None else AddDir(b.value, ds[|ds| - 1])
  }

  function AddFiles(b: Build, fs: seq<FileSpec>): Option<Build> {
    if fs == [] then Some(b)
    else
      var c := AddFiles(b, fs[..|fs| - 1]);
      if c.None? then None else AddFile(c.value, fs[|fs| - 1])
  }

  function AddAll(ds: seq<DirSpec>, fs: seq<FileSpec>): Option<Build> {
    var b := AddDirs(ds);
    if b.None? then None else AddFiles(b.value, fs)
  }

  datatype Outcome = Image(bytes: seq<byte>) | UnknownParent | TooManyEntries | NotEncodable

  predicate AllPackable(es: seq<Entry>) {
    forall i :: 0 <= i < |es| ==> Packable(es[i])
  }

  /** build_image: the image, or the first reason there is none. */
  function BuildOutcome(ds: seq<DirSpec>, fs: seq<FileSpec>): Outcome {
    var b := AddAll(ds, fs);
    if b.None? then UnknownParent
    else if |b.value.entries| > MAX_FILES then TooManyEntries
    else if !AllPackable(b.value.entries) then NotEncodable
    else Image(ImageBytes(b.value.entries, b.value.blobs))
  }

  // ---- the loops ---------------------------------------------------------------------------

  /** The input lists: programs, raw files, and data files, whose mode may be left out. */
  datatype Program = Program(name: Name, code: seq<byte>, parent: Option<Name>)

  datatype Raw = Raw(name: Name, data: seq<byte>, parent: Option<Name>)

  datatype DataFile = DataFile(name: Name, data: seq<byte>, parent: Option<Name>, mode: Option<uint16>)

  function ProgramFile(p: Program): FileSpec
    requires |p.code| < 0x1_0000_0000
  {
    FileSpec(p.name, MakeElf(p.code, USER_VA), p.parent, MODE_755)
  }

  function RawFile(r: Raw): FileSpec {
    FileSpec(r.name, r.data, r.parent, MODE_755)
  }

  function DataSpec(d: DataFile): FileSpec {
    FileSpec(d.name, d.data, d.parent, if d.mode.Some? then d.mode.value else MODE_644)
  }

  predicate SmallPrograms(ps: seq<Program>) {
    forall i :: 0 <= i < |ps| ==> |ps[i].code| < 0x1_0000_0000
  }

  /** The files of an image in the order they are added: programs in their executable wrapping, raw files, data
      files. */
  function AllFiles(ps: seq<Program>, raws: seq<Raw>, fs: seq<DataFile>): (r: seq<FileSpec>)
    requires SmallPrograms(ps)
    ensures |r| == |ps| + |raws| + |fs|
    ensures forall i :: 0 <= i < |ps| ==> r[i] == ProgramFile(ps[i])
    ensures forall i :: 0 <= i < |raws| ==> r[|ps| + i] == RawFile(raws[i])
    ensures forall i :: 0 <= i < |fs| ==> r[|ps| + |raws| + i] == DataSpec(fs[i])
  {
    seq(|ps|, i requires 0 <= i < |ps| => ProgramFile(ps[i])) +
    seq(|raws|, i requires 0 <= i < |raws| => RawFile(raws[i])) +
    seq(|fs|, i requires 0 <= i < |fs| => DataSpec(fs[i]))
  }

  class Builder {
    var entries: seq<Entry>
    var blobs: seq<seq<byte>>
    var next: nat
    var index: map<Name, nat>

    function Abs(): Build
      reads this
    {
      Build(entries, blobs, next, index)
    }

    constructor ()
      ensures Abs() == Start()
    {
      entries, blobs, next, index := [], [], SUPER_SECTORS, map[];
    }

    /** The body of the directory loop. */
    method PutDir(d: DirSpec) returns (ok: bool)
      modifies this
      ensures ok <==> AddDir(old(Abs()), d).Some?
      ensures Abs() == if ok then AddDir(old(Abs()), d).value else old(Abs())
    {
      var parent: nat := ROOT;
      if d.parent.Some? {
        if d.parent.value !in index { return false; }
        parent := index[d.parent.value];
      }
      index := index[d.name := |entries|];
      entries := entries + [Entry(d.name, 0, 0, TYPE_DIR, parent, MODE_755)];
      ok := true;
    }

    /** add_file. */
    method PutFile(f: FileSpec) returns (ok: bool)
      modifies this
      ensures ok <==> AddFile(old(Abs()), f).Some?
      ensures Abs() == if ok then AddFile(old(Abs()), f).value else old(Abs())
    {
      var parent: nat := ROOT;
      if f.parent.Some? {
        if f.parent.value !in index { return false; }
        parent := index[f.parent.value];
      }
      var padded := PadToSector(f.data);
      entries := entries + [Entry(f.name, next, |f.data|, TYPE_FILE, parent, f.mode)];
      blobs := blobs + [padded];
      next := next + |padded| / SECTOR;
      ok := true;
    }
  }

  /** The loop that encodes the table. */
  method EncodeTable(es: seq<Entry>) returns (table: seq<byte>)
    requires AllPackable(es)
    ensures table == EntriesBytes(es)
  {
    table := [];
    for i := 0 to |es|
      invariant EntriesBytes(es) == table + EntriesBytes(es[i..])
    {
      ghost var was, rest := table, EntriesBytes(es[i + 1..]);
      assert es[i..][0] == es[i] && es[i..][1..] == es[i + 1..];
      hide EncodeEntry, Packable;
      table := table + EncodeEntry(es[i]);
      assert was + (EncodeEntry(es[i]) + rest) == table + rest;
    }
    assert es[|es|..] == [];
  }

  /** b''.join(file_blobs). */
  method JoinBlobs(blobs: seq<seq<byte>>) returns (data: seq<byte>)
    ensures data == Concat(blobs)
  {
    data := [];
    for i := 0 to |blobs|
      invariant Concat(blobs) == data + Concat(blobs[i..])
    {
      ghost var was := data;
      data := data + blobs[i];
      assert blobs[i..][0] == blobs[i] && blobs[i..][1..] == blobs[i + 1..];
      assert was + (blobs[i] + Concat(blobs[i + 1..])) == data + Concat(blobs[i + 1..]);
    }
    assert blobs[|blobs|..] == [];
  }

  /** The end of build_image: header, table and files. */
  method Assemble(es: seq<Entry>, blobs: seq<seq<byte>>) returns (image: seq<byte>)
    requires |es| <= MAX_FILES && AllPackable(es)
    ensures image == ImageBytes(es, blobs)
  {
    hide EntriesBytes, Concat, Le, Zeros, Magic, Packable;
    var header := Magic() + Le(|es|, 4);
    header := header + Zeros(SECTOR - |header|);
    var table := EncodeTable(es);
    table := table + Zeros(ENTRY_SIZE * (MAX_FILES - |es|));
    var data := JoinBlobs(blobs);
    image := header + table + data;
    JoinImage(Magic(), Le(|es|, 4), Zeros(SECTOR - 12), EntriesBytes(es), Zeros(ENTRY_SIZE * (MAX_FILES - |es|)), data);
  }

  lemma JoinImage(a: seq<byte>, b: seq<byte>, c: seq<byte>, d: seq<byte>, e: seq<byte>, f: seq<byte>)
    ensures a + b + c + (d + e) + f == a + (b + (c + (d + (e + f))))
  {
  }

  /** How many programs come before the first whose length does not fit its header. */
  function SmallCount(ps: seq<Program>, i: nat): (k: nat)
    requires i <= |ps| && forall j :: 0 <= j < i ==> |ps[j].code| < 0x1_0000_0000
    ensures i <= k <= |ps| && (forall j :: 0 <= j < k ==> |ps[j].code| < 0x1_0000_0000)
    ensures k < |ps| ==> |ps[k].code| >= 0x1_0000_0000
    decreases |ps| - i
  {
    if i == |ps| || |ps[i].code| >= 0x1_0000_0000 then i else SmallCount(ps, i + 1)
  }

  /** build_image over its four lists: a program that is too long stops it when its turn comes. */
  function ImageOutcome(ds: seq<DirSpec>, ps: seq<Program>, raws: seq<Raw>, fs: seq<DataFile>): Outcome {
    var k := SmallCount(ps, 0);
    if k == |ps| then (assert ps[..k] == ps; BuildOutcome(ds, AllFiles(ps, raws, fs)))
    else if AddAll(ds, AllFiles(ps[..k], [], [])).None? then UnknownParent
    else NotEncodable
  }

  /** make_elf for one program after another, up to the first that is too long. */
  method PackPrograms(ps: seq<Program>) returns (files: seq<FileSpec>)
    ensures |files| == SmallCount(ps, 0)
    ensures forall k :: 0 <= k < |files| ==> files[k] == ProgramFile(ps[k])
  {
    hide ProgramFile;
    files := [];
    var i := 0;
    while i < |ps| && |ps[i].code| < 0x1_0000_0000
      invariant i <= |ps| && forall j :: 0 <= j < i ==> |ps[j].code| < 0x1_0000_0000
      invariant SmallCount(ps, 0) == SmallCount(ps, i)
      invariant |files| == i && forall k :: 0 <= k < i ==> files[k] == ProgramFile(ps[k])
    {
      files := files + [ProgramFile(ps[i])];
      i := i + 1;
    }
  }

  /** build_image, up to writing the file. A program that is too long stops it when its turn comes. */
  method BuildImage(ds: seq<DirSpec>, ps: seq<Program>, raws: seq<Raw>, fs: seq<DataFile>) returns (r: Outcome)
    ensures r == ImageOutcome(ds, ps, raws, fs)
    ensures SmallPrograms(ps) ==> r == BuildOutcome(ds, AllFiles(ps, raws, fs))
  {
    hide AddAll, ProgramFile, RawFile, DataSpec;
    var programs := PackPrograms(ps);
    if |programs| < |ps| {
      assert programs == AllFiles(ps[..|programs|], [], []);
      var before := BuildList(ds, programs);
      return if before == UnknownParent then UnknownParent else NotEncodable;
    }
    assert ps[..|ps|] == ps;
    var others: seq<FileSpec> := [];
    for i := 0 to |raws|
      invariant |others| == i && forall k :: 0 <= k < i ==> others[k] == RawFile(raws[k])
    {
      others := others + [RawFile(raws[i])];
    }
    var last: seq<FileSpec> := [];
    for i := 0 to |fs|
      invariant |last| == i && forall k :: 0 <= k < i ==> last[k] == DataSpec(fs[k])
    {
      last := last + [DataSpec(fs[i])];
    }
    assert programs + others + last == AllFiles(ps, raws, fs);
    r := BuildList(ds, programs + others + last);
  }

  /** The loops of build_image over directories and files, and the assembly of the image. */
  method BuildList(ds: seq<DirSpec>, fs: seq<FileSpec>) returns (r: Outcome)
    ensures r == BuildOutcome(ds, fs)
  {
    hide AddDir, AddFile, ImageBytes, Packable, AddAll;
    var b := new Builder();
    for i := 0 to |ds|
      invariant AddDirs(ds[..i]) == Some(b.Abs())
    {
      PrefixDirs(ds, i);
      var ok := b.PutDir(ds[i]);
      if !ok { Unbuildable(ds, i + 1, fs); return UnknownParent; }
    }
    assert ds[..|ds|] == ds;
    ghost var base := b.Abs();
    for i := 0 to |fs|
      invariant AddFiles(base, fs[..i]) == Some(b.Abs())
    {
      PrefixFiles(base, fs, i);
      var ok := b.PutFile(fs[i]);
      if !ok { UnbuildableFiles(base, fs, i + 1); Whole(ds, fs); return UnknownParent; }
    }
    assert fs[..|fs|] == fs;
    Whole(ds, fs);
    if |b.entries| > MAX_FILES { return TooManyEntries; }
    if !AllPackable(b.entries) { return NotEncodable; }
    var bytes := Assemble(b.entries, b.blobs);
    r := Image(bytes);
  }

  lemma Whole(ds: seq<DirSpec>, fs: seq<FileSpec>)
    ensures AddAll(ds, fs) == if AddDirs(ds).None? then None else AddFiles(AddDirs(ds).value, fs)
  {
  }

  lemma PrefixDirs(ds: seq<DirSpec>, i: nat)
    requires i < |ds|
    ensures AddDirs(ds[..i + 1]) == if AddDirs(ds[..i]).None? then None else AddDir(AddDirs(ds[..i]).value, ds[i])
  {
    assert ds[..i + 1][..i] == ds[..i];
  }

  lemma PrefixFiles(b: Build, fs: seq<FileSpec>, i: nat)
    requires i < |fs|
    ensures AddFiles(b, fs[..i + 1]) ==
            if AddFiles(b, fs[..i]).None? then None else AddFile(AddFiles(b, fs[..i]).value, fs[i])
  {
    assert fs[..i + 1][..i] == fs[..i];
  }

  lemma {:induction false} Unbuildable(ds: seq<DirSpec>, i: nat, fs: seq<FileSpec>)
    requires i <= |ds| && AddDirs(ds[..i]).None?
    ensures AddAll(ds, fs).None?
    decreases |ds| - i
  {
    if i < |ds| {
      PrefixDirs(ds, i);
      Unbuildable(ds, i + 1, fs);
    } else {
      assert ds[..i] == ds;
    }
  }

  lemma {:induction false} UnbuildableFiles(b: Build, fs: seq<FileSpec>, i: nat)
    requires i <= |fs| && AddFiles(b, fs[..i]).None?
    ensures AddFiles(b, fs).None?
    decreases |fs| - i
  {
    if i < |fs| {
      PrefixFiles(b, fs, i);
      UnbuildableFiles(b, fs, i + 1);
    } else {
      assert fs[..i] == fs;
    }
  }
}
