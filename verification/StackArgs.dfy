/** elf_setup_args: the argv frame is written onto a new process's stack through 32-bit offsets and physical
    addresses (kernel/elf.c). */
module StackArgs {
  import opened Bytes
  import opened ArgvFrame
  import opened ArgvReader

  // ---- 32-bit offsets ----------------------------------------------------------------------

  /** The physical address the kernel writes for offset `off` in the page at `base`: pointer arithmetic wraps. */
  function At(base: uint32, off: uint32): uint32 {
    Wrap32(base + off)
  }

  /** `off` is the 32-bit offset of physical address `a`, whether `a` is in the page or below it. */
  predicate Offset(base: uint32, off: uint32, a: nat) {
    off == Wrap32(a - base)
  }

  lemma WrapAdd(x: int, y: int)
    ensures Wrap32(x + Wrap32(y)) == Wrap32(x + y)
  {
    var q := y / 0x1_0000_0000;
    assert Wrap32(y) == y - q * 0x1_0000_0000;
  }

  lemma OffsetMoves(base: uint32, off: uint32, a: nat, d: nat)
    requires Offset(base, off, a) && a < 0x1_0000_0000 && d <= a
    ensures At(base, off) == a && Offset(base, Wrap32(off - d), a - d)
  {
    WrapAdd(base, a - base);
    var e: int := -(d as int);
    WrapAdd(e, a - base);
    assert Wrap32(a) == a;
    assert e + (a - base) == a - d - base && e + off == off - d && base + (a - base) == a;
    hide Wrap32;
  }

  lemma OffsetBytes(base: uint32, off: uint32, a: nat, j: nat)
    requires Offset(base, off, a) && a + j < 0x1_0000_0000
    ensures At(base, Wrap32(off + j)) == a + j
  {
    WrapAdd(base, off + j);
    WrapAdd(base + j, a - base);
    assert Wrap32(a + j) == a + j;
    assert base + (off + j) == base + j + off && base + j + (a - base) == a + j;
    hide Wrap32;
  }

  lemma OffsetAligns(base: uint32, off: uint32, a: nat)
    requires Offset(base, off, a) && a < 0x1_0000_0000 && base % 4 == 0
    ensures Offset(base, off - off % 4, a - a % 4)
  {
    var q := (a - base) / 0x1_0000_0000;
    assert a == base + off + q * 0x1_0000_0000;
    assert a % 4 == off % 4;
    WrapAdd(-(off % 4), a - base);
    assert -(off % 4) + (a - base) == a - a % 4 - base && -(off % 4) + off == off - off % 4;
    assert Wrap32(off - off % 4) == off - off % 4;
    hide Wrap32;
  }

  lemma AddressInRange(off: int)
    requires -MAX_RAM <= off <= SIZE
    ensures Address(off) == USER_STACK_VA + off && Address(off) % 4 == off % 4
  {
  }

  // ---- elf_setup_args ----------------------------------------------------------------------

  method PutWord(mem: array<byte>, a: nat, w: uint32)
    requires a + 4 <= mem.Length
    modifies mem
    ensures mem[..a] == old(mem[..a])
    ensures mem[a..] == Le(w, 4) + old(mem[a + 4..])
  {
    FourBytes(w);
    mem[a] := w % 0x100;
    mem[a + 1] := w / 0x100 % 0x100;
    mem[a + 2] := w / 0x1_0000 % 0x100;
    mem[a + 3] := w / 0x100_0000 % 0x100;
    hide Le;
  }

  /** One turn of the string loop: measure the string, then copy it and its NUL just below address `top`,
      which is offset `off`. */
  method PushString(mem: array<byte>, base: uint32, s: CString, off: uint32, ghost top: nat) returns (len: nat)
    requires |s| + 1 <= top <= mem.Length <= MAX_RAM && Offset(base, off, top)
    modifies mem
    ensures len == |s| + 1
    ensures mem[..] == old(mem[..])[..top - len] + (Stored(s) + old(mem[..])[top..])
  {
    hide Offset, At, Wrap32;
    ghost var was := mem[..];
    len := 0;
    while CharAt(s, len) != 0
      invariant len <= |s|
      decreases |s| - len
    {
      len := len + 1;
    }
    len := len + 1;
    var cur := Wrap32(off - len);
    ghost var low := top - len;
    OffsetMoves(base, off, top, len);
    for j := 0 to len
      invariant mem[..low] == was[..low] && mem[top..] == was[top..]
      invariant forall k :: 0 <= k < j ==> mem[low + k] == Stored(s)[k]
    {
      OffsetBytes(base, cur, low, j);
      mem[At(base, Wrap32(cur + j))] := CharAt(s, j);
    }
    assert mem[low..top] == Stored(s);
    ThreeParts(mem[..], low, top);
    assert mem[..low] == was[..low] && mem[top..] == was[top..];
  }

  lemma ThreeParts(s: seq<byte>, a: nat, b: nat)
    requires a <= b <= |s|
    ensures s == s[..a] + (s[a..b] + s[b..])
  {
  }

  /** The strings from `i` on lie below `hi`; nothing else has changed. */
  ghost predicate StringsPut(was: seq<byte>, now: seq<byte>, hi: nat, argv: seq<CString>, i: nat) {
    && i <= |argv| && hi <= |was| == |now| && |Strings(argv, i)| <= hi
    && (var a := hi - |Strings(argv, i)|; now[..a] == was[..a] && now[a..] == Strings(argv, i) + was[hi..])
  }

  /** Their user addresses are in `vas`. */
  ghost predicate AddressesPut(argv: seq<CString>, i: nat, vas: seq<uint32>) {
    i <= |argv| <= |vas| && forall k :: i <= k < |argv| ==> vas[k] == Address(StringOffset(argv, k))
  }

  /** The running offset and user address stand for the start of string `i`. */
  ghost predicate Cursor(base: uint32, off: uint32, va: uint32, argv: seq<CString>, i: nat) {
    && i <= |argv| && |Strings(argv, i)| <= base + SIZE
    && Offset(base, off, base + StringOffset(argv, i)) && va == Address(StringOffset(argv, i))
  }

  lemma CursorMoves(base: uint32, off: uint32, va: uint32, argv: seq<CString>, i: nat)
    requires i < |argv| && Cursor(base, off, va, argv, i + 1) && |Strings(argv, 0)| <= base + SIZE <= MAX_RAM
    ensures var len := |argv[i]| + 1;
            && Cursor(base, Wrap32(off - len), Wrap32(va - len), argv, i)
            && len <= base + StringOffset(argv, i + 1) <= base + SIZE
            && Offset(base, off, base + StringOffset(argv, i + 1))
            && Wrap32(va - len) == Address(StringOffset(argv, i))
            && len + |Strings(argv, i + 1)| <= base + SIZE
  {
    StringsGrow(argv, i);
    var len, o := |argv[i]| + 1, StringOffset(argv, i + 1);
    assert StringOffset(argv, i) == o - len && |Strings(argv, i)| <= base + SIZE;
    hide Strings, StringOffset, Wrap32;
    OffsetMoves(base, off, base + o, len);
    var e: int := -(len as int);
    WrapAdd(e, USER_STACK_VA + o);
    assert e + (USER_STACK_VA + o) == USER_STACK_VA + (o - len) && e + va == va - len;
    hide Offset;
  }

  /** One string more. */
  method PushNext(mem: array<byte>, base: uint32, argv: seq<CString>, i: nat, off: uint32, va: uint32,
                  ghost was: seq<byte>)
    returns (off1: uint32, va1: uint32)
    requires i < |argv| && base + SIZE <= mem.Length <= MAX_RAM && |Strings(argv, 0)| <= base + SIZE
    requires Cursor(base, off, va, argv, i + 1) && StringsPut(was, mem[..], base + SIZE, argv, i + 1)
    modifies mem
    ensures Cursor(base, off1, va1, argv, i) && StringsPut(was, mem[..], base + SIZE, argv, i)
    ensures va1 == Address(StringOffset(argv, i))
  {
    hide Strings, Offset, StringOffset, Address, Stored, StringsPut, Cursor, Wrap32;
    CursorMoves(base, off, va, argv, i);
    Below(base, argv, i);
    ghost var before := mem[..];
    var len := PushString(mem, base, argv[i], off, base + StringOffset(argv, i + 1));
    StringPushed(was, before, mem[..], base + SIZE, argv, i);
    off1 := Wrap32(off - len);
    va1 := Wrap32(va - len);
  }

  /** The first loop of elf_setup_args: the strings, last one highest. */
  method PushStrings(mem: array<byte>, base: uint32, argv: seq<CString>, strVa: array<uint32>)
    returns (off: uint32, va: uint32)
    requires base + SIZE <= mem.Length <= MAX_RAM && |Strings(argv, 0)| <= base + SIZE && |argv| <= strVa.Length
    modifies mem, strVa
    ensures Cursor(base, off, va, argv, 0) && StringsPut(old(mem[..]), mem[..], base + SIZE, argv, 0)
    ensures AddressesPut(argv, 0, strVa[..])
  {
    hide Strings, Offset, StringOffset, Address, Stored, StringsPut, Cursor, AddressesPut, Wrap32;
    ghost var was := mem[..];
    off, va := SIZE, USER_STACK_VA + SIZE;
    var i := |argv|;
    NoStrings(was, base, argv, strVa[..]);
    while i > 0
      invariant 0 <= i <= |argv| && Cursor(base, off, va, argv, i)
      invariant StringsPut(was, mem[..], base + SIZE, argv, i) && AddressesPut(argv, i, strVa[..])
    {
      i := i - 1;
      ghost var vas := strVa[..];
      off, va := PushNext(mem, base, argv, i, off, va, was);
      strVa[i] := va;
      assert strVa[..] == vas[i := va];
      OneMoreAddress(argv, i, vas, va);
    }
  }

  lemma NoStrings(was: seq<byte>, base: uint32, argv: seq<CString>, vas: seq<uint32>)
    requires base + SIZE <= |was| <= MAX_RAM && |argv| <= |vas|
    ensures AddressesPut(argv, |argv|, vas)
    ensures StringsPut(was, was, base + SIZE, argv, |argv|) && Cursor(base, SIZE, USER_STACK_VA + SIZE, argv, |argv|)
  {
  }

  lemma OneMoreAddress(argv: seq<CString>, i: nat, vas: seq<uint32>, va: uint32)
    requires i < |argv| && AddressesPut(argv, i + 1, vas) && va == Address(StringOffset(argv, i))
    ensures AddressesPut(argv, i, vas[i := va])
  {
    hide Address, StringOffset;
  }

  lemma Below(base: uint32, argv: seq<CString>, i: nat)
    requires i < |argv|
    ensures base + StringOffset(argv, i + 1) == base + SIZE - |Strings(argv, i + 1)|
    ensures base + StringOffset(argv, i) == base + SIZE - |Strings(argv, i)|
  {
    hide Strings;
  }

  lemma SpliceBelow(was: seq<byte>, before: seq<byte>, now: seq<byte>, lo: nat, b: nat, piece: seq<byte>,
                    rest: seq<byte>)
    requires lo + |piece| == b <= |was| == |before| && before[..b] == was[..b] && before[b..] == rest
    requires now == before[..lo] + (piece + before[b..])
    ensures |now| == |was| && now[..lo] == was[..lo] && now[lo..] == piece + rest
  {
    assert before[..lo] == before[..b][..lo] == was[..b][..lo];
  }

  lemma StringPushed(was: seq<byte>, before: seq<byte>, now: seq<byte>, hi: nat, argv: seq<CString>, i: nat)
    requires i < |argv| && StringsPut(was, before, hi, argv, i + 1) && |argv[i]| + 1 + |Strings(argv, i + 1)| <= hi
    requires var a := hi - |Strings(argv, i + 1)|;
             now == before[..a - |argv[i]| - 1] + (Stored(argv[i]) + before[a..])
    ensures StringsPut(was, now, hi, argv, i)
  {
    assert Strings(argv, i) == Stored(argv[i]) + Strings(argv, i + 1);
    hide Strings, Stored;
    var b, lo := hi - |Strings(argv, i + 1)|, hi - |Strings(argv, i)|;
    SpliceBelow(was, before, now, lo, b, Stored(argv[i]), Strings(argv, i + 1) + was[hi..]);
    assert Stored(argv[i]) + (Strings(argv, i + 1) + was[hi..]) == Strings(argv, i) + was[hi..];
  }

  lemma PointerStep(was: seq<byte>, before: seq<byte>, after: seq<byte>, argv: seq<CString>, i: nat, a: nat,
                    rest: seq<byte>)
    requires i < |argv| && |was| == |before| == |after| && a + 4 <= |was|
    requires before[..a + 4] == was[..a + 4] && before[a + 4..] == Pointers(argv, i + 1) + rest
    requires after[..a] == before[..a]
    requires after[a..] == Le(Address(StringOffset(argv, i)), 4) + before[a + 4..]
    ensures after[..a] == was[..a] && after[a..] == Pointers(argv, i) + rest
  {
    hide Le, Strings, Address;
    assert before[..a] == before[..a + 4][..a];
  }

  lemma NoPointers(argv: seq<CString>)
    ensures Pointers(argv, |argv|) == []
  {
  }

  /** The second loop: argv[argc-1] down to argv[0]. */
  method PushPointers(mem: array<byte>, base: uint32, ghost argv: seq<CString>, argc: nat, strVa: array<uint32>,
                      top: uint32, ghost a: nat) returns (off: uint32)
    requires argc == |argv| <= MAX_ARGS && 4 * argc <= a <= mem.Length <= MAX_RAM && Offset(base, top, a)
    requires strVa.Length >= argc && forall k :: 0 <= k < argc ==> strVa[k] == Address(StringOffset(argv, k))
    modifies mem
    ensures Offset(base, off, a - 4 * argc)
    ensures mem[..a - 4 * argc] == old(mem[..a - 4 * argc])
    ensures mem[a - 4 * argc..] == Pointers(argv, 0) + old(mem[a..])
  {
    hide Le, Strings, Offset, Address, StringOffset, At, Pointers;
    ghost var was := mem[..];
    off := top;
    var i := argc;
    ghost var b := a;
    NoPointers(argv);
    while i > 0
      invariant 0 <= i <= argc && b == a - 4 * (argc - i) && Offset(base, off, b)
      invariant mem[..b] == was[..b]
      invariant mem[b..] == Pointers(argv, i) + was[a..]
    {
      i := i - 1;
      OffsetMoves(base, off, b, 4);
      b := b - 4;
      off := Wrap32(off - 4);
      OffsetMoves(base, off, b, 0);
      ghost var before := mem[..];
      PutWord(mem, At(base, off), strVa[i]);
      PointerStep(was, before, mem[..], argv, i, b, was[a..]);
    }
  }

  /** The pointer table and argc, below the strings. */
  method PushTable(mem: array<byte>, base: uint32, ghost argv: seq<CString>, argc: nat, strVa: array<uint32>,
                   top: uint32, ghost a: nat) returns (off: uint32)
    requires argc == |argv| <= MAX_ARGS && 4 * (argc + 2) <= a <= mem.Length <= MAX_RAM && Offset(base, top, a)
    requires strVa.Length >= argc && forall k :: 0 <= k < argc ==> strVa[k] == Address(StringOffset(argv, k))
    modifies mem
    ensures Offset(base, off, a - 4 * (argc + 2))
    ensures mem[..a - 4 * (argc + 2)] == old(mem[..a - 4 * (argc + 2)])
    ensures mem[a - 4 * (argc + 2)..] == Le(argc, 4) + (Pointers(argv, 0) + (Le(0, 4) + old(mem[a..])))
  {
    hide Strings, Le, Pointers, Offset, At, Address;
    ghost var was, low := mem[..], a - 4 * (argc + 2);
    OffsetMoves(base, top, a, 4);
    off := Wrap32(top - 4);
    OffsetMoves(base, off, a - 4, 0);
    PutWord(mem, At(base, off), 0);
    ghost var p1 := mem[..];
    assert p1[a - 4..] == Le(0, 4) + was[a..];
    off := PushPointers(mem, base, argv, argc, strVa, off, a - 4);
    ghost var p2 := mem[..];
    assert p2[..low + 4] == p1[..low + 4] == was[..low + 4];
    OffsetMoves(base, off, low + 4, 4);
    off := Wrap32(off - 4);
    OffsetMoves(base, off, low, 0);
    PutWord(mem, At(base, off), argc);
    assert mem[..low] == p2[..low] == p2[..low + 4][..low] == was[..low];
  }

  /** elf_setup_args for a list of arguments that fits the kernel's table. */
  method Pack(mem: array<byte>, base: uint32, argv: seq<CString>) returns (userEsp: uint32)
    requires base % SIZE == 0 && base + SIZE <= mem.Length <= MAX_RAM
    requires |argv| <= MAX_ARGS && Footprint(argv) <= base + SIZE
    modifies mem
    ensures userEsp == STACK_TOP - Footprint(argv)
    ensures mem[..] == Packed(old(mem[..]), base + SIZE, argv)
  {
    hide Strings, Le, Pointers, Frame, Padding, Packed, Offset, Address, StringsPut, AddressesPut, Cursor, StringOffset,
         Footprint, TableTop;
    ghost var was := mem[..];
    var strVa := new uint32[MAX_ARGS];
    StringsFit(base, argv);
    var strings, va := PushStrings(mem, base, argv, strVa);
    ghost var p1 := mem[..];
    ghost var a := TableTop(base + SIZE, argv);
    TableStarts(base, strings, va, argv);
    PutMeans(was, p1, base + SIZE, argv, strVa[..]);
    var off := PushTable(mem, base, argv, |argv|, strVa, strings - strings % 4, a);
    userEsp := Wrap32(va - va % 4 - 4 * (|argv| + 2));
    FrameAssembles(was, p1, mem[..], base + SIZE, argv);
  }

  lemma StringsFit(base: uint32, argv: seq<CString>)
    requires Footprint(argv) <= base + SIZE
    ensures |Strings(argv, 0)| <= base + SIZE
  {
    hide Strings;
  }

  /** Where the strings end the pointer table begins, once the cursor is aligned. */
  lemma TableStarts(base: uint32, off: uint32, va: uint32, argv: seq<CString>)
    requires base % SIZE == 0 && |argv| <= MAX_ARGS && base + SIZE <= MAX_RAM && Footprint(argv) <= base + SIZE
    requires Cursor(base, off, va, argv, 0)
    ensures var a := TableTop(base + SIZE, argv);
            && 4 * (|argv| + 2) <= a <= base + SIZE && Offset(base, off - off % 4, a)
            && a - 4 * (|argv| + 2) == base + SIZE - Footprint(argv)
    ensures Wrap32(va - va % 4 - 4 * (|argv| + 2)) == STACK_TOP - Footprint(argv)
  {
    hide *;
    CursorMeans(base, off, va, argv);
    PageIsAligned(base);
    OffsetAligns(base, off, base + StringOffset(argv, 0));
    TopOf(base, base + StringOffset(argv, 0), va, argv);
  }

  lemma CursorMeans(base: uint32, off: uint32, va: uint32, argv: seq<CString>)
    requires Cursor(base, off, va, argv, 0) && base + SIZE <= MAX_RAM
    ensures 0 <= base + StringOffset(argv, 0) <= base + SIZE < 0x1_0000_0000
    ensures Offset(base, off, base + StringOffset(argv, 0)) && va == Address(StringOffset(argv, 0))
  {
    hide Strings, Offset, Address, Wrap32;
  }

  lemma PageIsAligned(base: uint32)
    requires base % SIZE == 0
    ensures base % 4 == 0 && base + SIZE == 4 * ((base + SIZE) / 4)
  {
    var q := base / SIZE;
    assert base == q * SIZE;
    DivModUnique(base, 4, 1024 * q, 0);
    DivModUnique(base + SIZE, 4, 1024 * q + 1024, 0);
  }

  lemma PutMeans(was: seq<byte>, p1: seq<byte>, hi: nat, argv: seq<CString>, vas: seq<uint32>)
    requires StringsPut(was, p1, hi, argv, 0) && AddressesPut(argv, 0, vas)
    ensures |p1| == |was| && p1[..hi - |Strings(argv, 0)|] == was[..hi - |Strings(argv, 0)|]
    ensures p1[hi - |Strings(argv, 0)|..] == Strings(argv, 0) + was[hi..]
    ensures forall k :: 0 <= k < |argv| ==> vas[k] == Address(StringOffset(argv, k))
  {
    hide Strings, Address, StringOffset;
  }

  /** elf_setup_args on physical memory: fill the stack page at `base` from its end downwards, whether or not
      the frame fits it. `sp` is the process's page tables: where its stack lies physically as it does for the
      process, as far as the frame reaches, the process recovers its arguments, the first 128 of them if there are
      more; on a stack as elf_load makes it, nowhere else. */
  method SetupArgs(mem: array<byte>, base: uint32, argv: seq<CString>, ghost sp: Space) returns (userEsp: uint32)
    requires base % SIZE == 0 && base + SIZE <= mem.Length <= MAX_RAM && Footprint(Kept(argv)) <= base + SIZE
    requires TOP_PAGE in sp && sp[TOP_PAGE] * SIZE == base
    modifies mem
    ensures userEsp == 0x4010_1000 - Footprint(Kept(argv)) && userEsp % 4 == 0
    ensures mem[..] == Packed(old(mem[..]), base + SIZE, Kept(argv))
    ensures |argv| <= 128 && RunsOn(sp, Footprint(argv)) ==> ReadArgs(mem[..], sp, userEsp) == Some(argv)
    ensures |argv| > 128 && RunsOn(sp, Footprint(argv[..128])) ==>
              ReadArgs(mem[..], sp, userEsp) == Some(argv[..128])
    ensures FreshStack(old(mem[..]), sp) && Footprint(Kept(argv)) <= STACK_PAGES * SIZE ==>
              && ArgcPage(Kept(argv)) in sp
              && (ReadArgs(mem[..], sp, userEsp) == Some(Kept(argv)) <==> Adjoins(sp, ArgcPage(Kept(argv))))
    ensures Footprint(Kept(argv)) > STACK_PAGES * SIZE ==> userEsp < STACK_LOW
  {
    hide *;
    SetupFacts(base, argv, sp);
    var argc := |argv|;
    if argc > 128 { argc := 128; }
    assert argv[..argc] == Kept(argv);
    userEsp := Pack(mem, base, argv[..argc]);
    ArgsRecovered(old(mem[..]), sp, Kept(argv));
  }

  lemma SetupFacts(base: uint32, argv: seq<CString>, sp: Space)
    requires base + SIZE <= MAX_RAM && Footprint(Kept(argv)) <= base + SIZE
    requires TOP_PAGE in sp && sp[TOP_PAGE] * SIZE == base
    ensures |argv| <= 128 ==> Kept(argv) == argv
    ensures |argv| > 128 ==> Kept(argv) == argv[..128]
    ensures |Kept(argv)| <= MAX_ARGS && PhysicalTop(sp) == base + SIZE && STACK_TOP == 0x4010_1000
    ensures Footprint(Kept(argv)) <= STACK_TOP && (STACK_TOP - Footprint(Kept(argv))) % 4 == 0
    ensures Footprint(Kept(argv)) > STACK_PAGES * SIZE ==> STACK_TOP - Footprint(Kept(argv)) < STACK_LOW
  {
    FootprintBounds(Kept(argv));
    hide Footprint;
  }

  lemma ArgsRecovered(was: seq<byte>, sp: Space, argv: seq<CString>)
    requires |argv| <= MAX_ARGS && TOP_PAGE in sp && Footprint(argv) <= PhysicalTop(sp) <= |was|
    requires Footprint(argv) <= STACK_TOP
    ensures var now, esp := Packed(was, PhysicalTop(sp), argv), STACK_TOP - Footprint(argv);
            && (RunsOn(sp, Footprint(argv)) ==> ReadArgs(now, sp, esp) == Some(argv))
            && (FreshStack(was, sp) && Footprint(argv) <= STACK_PAGES * SIZE ==>
                  && ArgcPage(argv) in sp
                  && (ReadArgs(now, sp, esp) == Some(argv) <==> Adjoins(sp, ArgcPage(argv))))
  {
    hide *;
    if RunsOn(sp, Footprint(argv)) { RecoversInPlace(was, sp, argv); }
    if FreshStack(was, sp) && Footprint(argv) <= STACK_PAGES * SIZE { RecoversIff(was, sp, argv); }
  }

  lemma TopOf(base: uint32, a: nat, va: uint32, argv: seq<CString>)
    requires base % SIZE == 0 && |argv| <= MAX_ARGS && base + SIZE <= MAX_RAM && Footprint(argv) <= base + SIZE
    requires a == base + StringOffset(argv, 0) && va == Address(a - base)
    ensures a - a % 4 == TableTop(base + SIZE, argv) && 4 * (|argv| + 2) <= a - a % 4
    ensures a - a % 4 - 4 * (|argv| + 2) == base + SIZE - Footprint(argv)
    ensures Wrap32(va - va % 4 - 4 * (|argv| + 2)) == STACK_TOP - Footprint(argv)
  {
    var n := |Strings(argv, 0)|;
    hide Strings;
    Rounded(base, n);
    AddressInRange(a - base);
    hide Address;
    assert (a - base) % 4 == a % 4;
    assert va - va % 4 == USER_STACK_VA + SIZE - (n + 3) / 4 * 4;
  }

  lemma Rounded(base: uint32, n: nat)
    requires base % SIZE == 0 && n <= base + SIZE
    ensures var a := base + SIZE - n; a - a % 4 == base + SIZE - (n + 3) / 4 * 4
  {
    hide *;
    PageIsAligned(base);
    assert n == 4 * (n / 4) + n % 4;
    RoundDown((base + SIZE) / 4, n / 4, n % 4);
  }

  lemma RoundDown(k: nat, q: nat, r: nat)
    requires r < 4 && 4 * q + r <= 4 * k
    ensures var a := 4 * k - (4 * q + r); a - a % 4 == 4 * k - (4 * q + r + 3) / 4 * 4
  {
    assert (4 * q + r + 3) / 4 == if r == 0 then q else q + 1;
  }

  lemma PaddingBetween(was: seq<byte>, p1: seq<byte>, top: nat, strings: nat, s: seq<byte>, rest: seq<byte>)
    requires top <= strings <= |was| == |p1| && p1[..strings] == was[..strings] && p1[strings..] == s + rest
    ensures p1[top..] == was[top..strings] + s + rest
  {
    assert p1[top..] == p1[..strings][top..] + p1[strings..];
    assert was[top..strings] == was[..strings][top..];
  }

  lemma FrameOrder(hi: nat, argv: seq<CString>)
    requires Footprint(argv) <= hi
    ensures hi - Footprint(argv) <= TableTop(hi, argv) <= hi - |Strings(argv, 0)|
  {
    hide Strings;
  }

  lemma FrameJoins(was: seq<byte>, p1: seq<byte>, p2: seq<byte>, low: nat, top: nat, strings: nat, hi: nat,
                   a: seq<byte>, b: seq<byte>, c: seq<byte>, s: seq<byte>)
    requires |was| == |p1| == |p2| && low <= top <= strings <= hi <= |was|
    requires p1[..strings] == was[..strings] && p1[strings..] == s + was[hi..]
    requires p2[..low] == p1[..low] && p2[low..] == a + (b + (c + p1[top..]))
    ensures p2 == was[..low] + (a + (b + (c + (was[top..strings] + s)))) + was[hi..]
  {
    PaddingBetween(was, p1, top, strings, s, was[hi..]);
    Regroup(a, b, c, was[top..strings], s, was[hi..]);
    assert p1[..low] == p1[..strings][..low] == was[..strings][..low];
    assert p2 == p2[..low] + p2[low..];
  }

  lemma FrameAssembles(was: seq<byte>, p1: seq<byte>, p2: seq<byte>, hi: nat, argv: seq<CString>)
    requires |was| == |p1| == |p2| && |argv| <= MAX_ARGS && Footprint(argv) <= hi <= |was|
    requires p1[..hi - |Strings(argv, 0)|] == was[..hi - |Strings(argv, 0)|]
    requires p1[hi - |Strings(argv, 0)|..] == Strings(argv, 0) + was[hi..]
    requires p2[..hi - Footprint(argv)] == p1[..hi - Footprint(argv)]
    requires p2[hi - Footprint(argv)..] == Le(|argv|, 4) + (Pointers(argv, 0) + (Le(0, 4) + p1[TableTop(hi, argv)..]))
    ensures p2 == Packed(was, hi, argv)
  {
    hide Strings, Le, Pointers, Footprint, TableTop;
    FrameOrder(hi, argv);
    FrameJoins(was, p1, p2, hi - Footprint(argv), TableTop(hi, argv), hi - |Strings(argv, 0)|, hi,
               Le(|argv|, 4), Pointers(argv, 0), Le(0, 4), Strings(argv, 0));
  }

  lemma Regroup(a: seq<byte>, b: seq<byte>, c: seq<byte>, d: seq<byte>, e: seq<byte>, f: seq<byte>)
    ensures a + (b + (c + (d + e + f))) == a + (b + (c + (d + e))) + f
  {
  }
}
