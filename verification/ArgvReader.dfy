/** The new process reading its arguments: through its own page tables, from physical memory. */
module ArgvReader {
  import opened Bytes
  import opened ArgvFrame

  const LIMIT := 0x1_0000_0000
  const TOP_PAGE := USER_STACK_VA / SIZE
  const LOW_PAGE := STACK_LOW / SIZE

  /** The process's page tables: physical page numbers by virtual page number. */
  type Space = map<nat, nat>

  function ByteAt(mem: seq<byte>, sp: Space, va: nat): Option<byte> {
    var n := va / SIZE;
    if n in sp && sp[n] * SIZE + va % SIZE < |mem| then Some(mem[sp[n] * SIZE + va % SIZE]) else None
  }

  /** The little-endian word at a user address. */
  function ReadWord(mem: seq<byte>, sp: Space, va: nat): Option<nat> {
    var a, b, c, d := ByteAt(mem, sp, va), ByteAt(mem, sp, va + 1), ByteAt(mem, sp, va + 2), ByteAt(mem, sp, va + 3);
    if a.None? || b.None? || c.None? || d.None? then None
    else Some(FromLe([a.value, b.value, c.value, d.value]))
  }

  /** The C string at a user address. */
  function ReadString(mem: seq<byte>, sp: Space, va: nat): Option<CString>
    decreases LIMIT - va
  {
    if va >= LIMIT || ByteAt(mem, sp, va).None? then None
    else
      var c := ByteAt(mem, sp, va).value;
      if c == 0 then Some([])
      else
        var rest := ReadString(mem, sp, va + 1);
        if rest.None? then None else Some([c] + rest.value)
  }

  /** The strings `n` consecutive pointers lead to. */
  function ReadStrings(mem: seq<byte>, sp: Space, va: nat, n: nat): Option<seq<CString>>
    decreases n
  {
    if n == 0 then Some([])
    else
      var p := ReadWord(mem, sp, va);
      if p.None? then None
      else
        var s, rest := ReadString(mem, sp, p.value), ReadStrings(mem, sp, va + 4, n - 1);
        if s.None? || rest.None? then None else Some([s.value] + rest.value)
  }

  /** What a process's start code finds at its stack pointer: argc, argc strings, and a NULL after them. */
  function ReadArgs(mem: seq<byte>, sp: Space, esp: nat): Option<seq<CString>> {
    var argc := ReadWord(mem, sp, esp);
    if argc.None? || ReadWord(mem, sp, esp + 4 + 4 * argc.value) != Some(0) then None
    else ReadStrings(mem, sp, esp + 4, argc.value)
  }

  // ---- a process that sees the frame -------------------------------------------------------

  /** The process sees the bytes `b` from address `va` on. */
  ghost predicate Shows(mem: seq<byte>, sp: Space, va: nat, b: seq<byte>) {
    forall k: nat {:trigger b[k]} :: k < |b| ==> ByteAt(mem, sp, va + k) == Some(b[k])
  }

  lemma ShowsParts(mem: seq<byte>, sp: Space, va: nat, a: seq<byte>, b: seq<byte>)
    requires Shows(mem, sp, va, a + b)
    ensures Shows(mem, sp, va, a) && Shows(mem, sp, va + |a|, b)
  {
    hide ByteAt;
    forall k: nat | k < |a| ensures ByteAt(mem, sp, va + k) == Some(a[k]) {
      assert (a + b)[k] == a[k];
    }
    forall k: nat | k < |b| ensures ByteAt(mem, sp, va + |a| + k) == Some(b[k]) {
      assert (a + b)[|a| + k] == b[k];
    }
  }

  lemma LeWord(w: uint32)
    ensures FromLe(Le(w, 4)) == w
  {
    LeRoundTrip(w, 4);
    assert Power256(4) == 0x1_0000_0000 by { assert Power256(2) == 0x1_0000; }
    hide Le, FromLe;
  }

  lemma WordReads(mem: seq<byte>, sp: Space, va: nat, w: uint32)
    requires Shows(mem, sp, va, Le(w, 4))
    ensures ReadWord(mem, sp, va) == Some(w)
  {
    hide Le, FromLe, ByteAt;
    var b := Le(w, 4);
    LeWord(w);
    assert b[0] == b[0] && b[1] == b[1] && b[2] == b[2] && b[3] == b[3];
    assert ByteAt(mem, sp, va + 0) == Some(b[0]);
    assert b == [b[0], b[1], b[2], b[3]];
  }

  lemma {:induction false} StringReads(mem: seq<byte>, sp: Space, va: nat, s: CString)
    requires Shows(mem, sp, va, Stored(s)) && va + |s| < LIMIT
    ensures ReadString(mem, sp, va) == Some(s)
    decreases |s|
  {
    var b := Stored(s);
    assert ByteAt(mem, sp, va + 0) == Some(b[0]);
    if s != [] {
      assert b == [b[0]] + Stored(s[1..]);
      ShowsParts(mem, sp, va, [b[0]], Stored(s[1..]));
      StringReads(mem, sp, va + 1, s[1..]);
      assert [s[0]] + s[1..] == s;
    }
    hide ByteAt;
  }

  /** The address of string `i`. */
  lemma StringAddress(argv: seq<CString>, i: nat)
    requires i <= |argv| && |Strings(argv, i)| <= STACK_TOP
    ensures Address(StringOffset(argv, i)) == STACK_TOP - |Strings(argv, i)|
  {
    hide Strings;
  }

  lemma {:induction false} StringsShown(mem: seq<byte>, sp: Space, argv: seq<CString>, i: nat)
    requires i <= |argv| && |Strings(argv, 0)| <= STACK_TOP
    requires Shows(mem, sp, STACK_TOP - |Strings(argv, 0)|, Strings(argv, 0))
    ensures |Strings(argv, i)| <= STACK_TOP && Shows(mem, sp, STACK_TOP - |Strings(argv, i)|, Strings(argv, i))
  {
    if i > 0 {
      StringsShown(mem, sp, argv, i - 1);
      assert Strings(argv, i - 1) == Stored(argv[i - 1]) + Strings(argv, i);
      hide Strings, Shows, Stored;
      ShowsParts(mem, sp, STACK_TOP - |Strings(argv, i - 1)|, Stored(argv[i - 1]), Strings(argv, i));
    }
  }

  lemma StringIsRead(mem: seq<byte>, sp: Space, argv: seq<CString>, i: nat)
    requires i < |argv| && |Strings(argv, 0)| <= STACK_TOP
    requires Shows(mem, sp, STACK_TOP - |Strings(argv, 0)|, Strings(argv, 0))
    ensures ReadString(mem, sp, Address(StringOffset(argv, i))) == Some(argv[i])
  {
    StringsShown(mem, sp, argv, i);
    assert Strings(argv, i) == Stored(argv[i]) + Strings(argv, i + 1);
    StringAddress(argv, i);
    hide Strings, Shows, Stored, ReadString, Address, StringOffset;
    var va := STACK_TOP - |Strings(argv, i)|;
    ShowsParts(mem, sp, va, Stored(argv[i]), Strings(argv, i + 1));
    StringReads(mem, sp, va, argv[i]);
  }

  lemma {:induction false} PointersRead(mem: seq<byte>, sp: Space, argv: seq<CString>, i: nat, va: nat)
    requires i <= |argv| && |Strings(argv, 0)| <= STACK_TOP
    requires Shows(mem, sp, STACK_TOP - |Strings(argv, 0)|, Strings(argv, 0))
    requires Shows(mem, sp, va, Pointers(argv, i))
    ensures ReadStrings(mem, sp, va, |argv| - i) == Some(argv[i..])
    decreases |argv| - i
  {
    hide Pointers, Strings, Le, ReadString, ReadWord, Shows, Address, StringOffset;
    if i < |argv| {
      var w := Address(StringOffset(argv, i));
      PointersStep(argv, i);
      StringIsRead(mem, sp, argv, i);
      ShowsParts(mem, sp, va, Le(w, 4), Pointers(argv, i + 1));
      WordReads(mem, sp, va, w);
      PointersRead(mem, sp, argv, i + 1, va + 4);
      ReadMore(mem, sp, va, |argv| - i, w, argv[i], argv[i + 1..]);
      assert argv[i..] == [argv[i]] + argv[i + 1..];
    } else {
      assert argv[i..] == [];
    }
  }

  lemma PointersStep(argv: seq<CString>, i: nat)
    requires i < |argv|
    ensures Pointers(argv, i) == Le(Address(StringOffset(argv, i)), 4) + Pointers(argv, i + 1)
  {
    hide Le, Address, StringOffset;
  }

  lemma ReadMore(mem: seq<byte>, sp: Space, va: nat, n: nat, w: nat, s: CString, rest: seq<CString>)
    requires n > 0 && ReadWord(mem, sp, va) == Some(w) && ReadString(mem, sp, w) == Some(s)
    requires ReadStrings(mem, sp, va + 4, n - 1) == Some(rest)
    ensures ReadStrings(mem, sp, va, n) == Some([s] + rest)
  {
    hide ReadWord, ReadString;
  }

  lemma ArgsFound(mem: seq<byte>, sp: Space, esp: nat, n: nat, argv: seq<CString>)
    requires ReadWord(mem, sp, esp) == Some(n) && ReadWord(mem, sp, esp + 4 + 4 * n) == Some(0)
    requires ReadStrings(mem, sp, esp + 4, n) == Some(argv)
    ensures ReadArgs(mem, sp, esp) == Some(argv)
  {
    hide ReadWord, ReadStrings;
  }

  lemma FrameParts(mem: seq<byte>, sp: Space, argv: seq<CString>, esp: nat, pad: seq<byte>)
    requires |argv| <= MAX_ARGS && Shows(mem, sp, esp, Frame(argv, pad))
    ensures Shows(mem, sp, esp, Le(|argv|, 4)) && Shows(mem, sp, esp + 4, Pointers(argv, 0))
    ensures Shows(mem, sp, esp + 4 + 4 * |argv|, Le(0, 4))
    ensures Shows(mem, sp, esp + 8 + 4 * |argv| + |pad|, Strings(argv, 0))
  {
    hide Strings, Pointers, Le, Shows;
    var n, p, s := |argv|, Pointers(argv, 0), Strings(argv, 0);
    ShowsParts(mem, sp, esp, Le(n, 4), p + (Le(0, 4) + (pad + s)));
    ShowsParts(mem, sp, esp + 4, p, Le(0, 4) + (pad + s));
    ShowsParts(mem, sp, esp + 4 + 4 * n, Le(0, 4), pad + s);
    ShowsParts(mem, sp, esp + 8 + 4 * n, pad, s);
  }

  /** A process that sees the frame at its stack pointer, up to the top of the stack, recovers exactly its
      arguments. */
  lemma FrameIsRead(mem: seq<byte>, sp: Space, argv: seq<CString>, pad: seq<byte>)
    requires |argv| <= MAX_ARGS && |Frame(argv, pad)| == Footprint(argv) <= STACK_TOP
    requires Shows(mem, sp, STACK_TOP - Footprint(argv), Frame(argv, pad))
    ensures ReadArgs(mem, sp, STACK_TOP - Footprint(argv)) == Some(argv)
  {
    hide Strings, Pointers, Le, ReadWord, ReadStrings, Frame, ReadArgs, Footprint, Shows;
    var esp, n := STACK_TOP - Footprint(argv), |argv|;
    FrameLength(argv, pad);
    FrameParts(mem, sp, argv, esp, pad);
    WordReads(mem, sp, esp, n);
    WordReads(mem, sp, esp + 4 + 4 * n, 0);
    PointersRead(mem, sp, argv, 0, esp + 4);
    assert argv[0..] == argv;
    ArgsFound(mem, sp, esp, n, argv);
  }

  lemma FrameLength(argv: seq<CString>, pad: seq<byte>)
    requires |argv| <= MAX_ARGS
    ensures |Frame(argv, pad)| == 8 + 4 * |argv| + |pad| + |Strings(argv, 0)|
  {
    hide Strings, Pointers, Le;
  }

  // ---- through the page tables -------------------------------------------------------------

  /** The `n` bytes below the top of the stack lie physically as they do in the process. */
  ghost predicate RunsOn(sp: Space, n: nat) {
    && TOP_PAGE in sp
    && forall i: nat :: i * SIZE < n && i <= TOP_PAGE ==> RunsAt(sp, i)
  }

  predicate RunsAt(sp: Space, i: nat)
    requires TOP_PAGE in sp && i <= TOP_PAGE
  {
    TOP_PAGE - i in sp && sp[TOP_PAGE - i] == sp[TOP_PAGE] - i
  }

  /** The physical address behind the top of the stack. */
  function PhysicalTop(sp: Space): nat
    requires TOP_PAGE in sp
  {
    (sp[TOP_PAGE] + 1) * SIZE
  }

  lemma RunSees(mem: seq<byte>, sp: Space, n: nat, va: nat)
    requires RunsOn(sp, n) && PhysicalTop(sp) <= |mem| && va < STACK_TOP <= va + n
    ensures STACK_TOP - va <= PhysicalTop(sp)
    ensures ByteAt(mem, sp, va) == Some(mem[PhysicalTop(sp) - (STACK_TOP - va)])
  {
    var i := TOP_PAGE - va / SIZE;
    assert va == (TOP_PAGE - i) * SIZE + va % SIZE;
    assert RunsAt(sp, i);
  }

  lemma FrameInPlace(mem: seq<byte>, hi: nat, argv: seq<CString>)
    requires |argv| <= MAX_ARGS && Footprint(argv) <= hi <= |mem|
    ensures 0 <= TableTop(hi, argv) <= hi
    ensures var f := Frame(argv, Padding(mem, hi, argv));
            |f| == Footprint(argv) && Packed(mem, hi, argv)[hi - Footprint(argv)..hi] == f
  {
    TopIsAbove(hi, argv);
    PaddingFits(mem, hi, argv);
    FrameStarts(argv, Padding(mem, hi, argv));
    hide Frame, Padding, Footprint, TableTop, Strings;
  }

  /** When the stack pages the frame reaches lie physically one right below the other, the process recovers its
      arguments. */
  lemma RecoversInPlace(mem: seq<byte>, sp: Space, argv: seq<CString>)
    requires |argv| <= MAX_ARGS && RunsOn(sp, Footprint(argv)) && Footprint(argv) <= STACK_TOP
    requires Footprint(argv) <= PhysicalTop(sp) <= |mem|
    ensures ReadArgs(Packed(mem, PhysicalTop(sp), argv), sp, STACK_TOP - Footprint(argv)) == Some(argv)
  {
    hide Frame, Padding, Footprint, TableTop, Strings, Packed, PhysicalTop, ReadArgs;
    var hi, n := PhysicalTop(sp), Footprint(argv);
    var now := Packed(mem, hi, argv);
    FrameInPlace(mem, hi, argv);
    var f := Frame(argv, Padding(mem, hi, argv));
    forall k: nat | k < |f| ensures ByteAt(now, sp, STACK_TOP - n + k) == Some(f[k]) {
      RunSees(now, sp, n, STACK_TOP - n + k);
      assert f[k] == now[hi - n..hi][k];
    }
    FrameIsRead(now, sp, argv, Padding(mem, hi, argv));
  }

  /** The page argc is due on. */
  function ArgcPage(argv: seq<CString>): nat
    requires Footprint(argv) <= STACK_TOP
  {
    (STACK_TOP - Footprint(argv)) / SIZE
  }

  /** The page's physical place is outside what was written. */
  predicate Spared(page: nat, hi: nat, argv: seq<CString>) {
    (page + 1) * SIZE + Footprint(argv) <= hi || hi <= page * SIZE
  }

  predicate Blank(mem: seq<byte>, page: nat) {
    (page + 1) * SIZE <= |mem| && forall k {:trigger mem[k]} :: page * SIZE <= k < (page + 1) * SIZE ==> mem[k] == 0
  }

  lemma SamePage(va: nat, k: nat)
    requires va % 4 == 0 && k < 4
    ensures (va + k) / SIZE == va / SIZE && (va + k) % SIZE < SIZE
  {
  }

  lemma BlankKept(mem: seq<byte>, sp: Space, argv: seq<CString>, va: nat)
    requires |argv| <= MAX_ARGS && TOP_PAGE in sp && Footprint(argv) <= PhysicalTop(sp) <= |mem| && va / SIZE in sp
    requires Spared(sp[va / SIZE], PhysicalTop(sp), argv) && Blank(mem, sp[va / SIZE])
    ensures ByteAt(Packed(mem, PhysicalTop(sp), argv), sp, va) == Some(0)
  {
    hide Footprint, Packed;
    OutsideKept(mem, PhysicalTop(sp), argv, sp[va / SIZE] * SIZE + va % SIZE);
  }

  /** When argc is due on a fresh page that was not written, the process reads argc 0 and recovers nothing. */
  lemma LostOnBlankPage(mem: seq<byte>, sp: Space, argv: seq<CString>)
    requires 1 <= |argv| <= MAX_ARGS && TOP_PAGE in sp && Footprint(argv) <= PhysicalTop(sp) <= |mem|
    requires Footprint(argv) <= STACK_TOP && ArgcPage(argv) in sp
    requires Spared(sp[ArgcPage(argv)], PhysicalTop(sp), argv) && Blank(mem, sp[ArgcPage(argv)])
    ensures ReadArgs(Packed(mem, PhysicalTop(sp), argv), sp, STACK_TOP - Footprint(argv)) != Some(argv)
  {
    FootprintBounds(argv);
    hide PhysicalTop, Packed, Footprint, Blank, Spared, ByteAt, ReadWord, Le;
    var esp, zero := STACK_TOP - Footprint(argv), Zeros(4);
    var now := Packed(mem, PhysicalTop(sp), argv);
    forall k: nat | k < |zero| ensures ByteAt(now, sp, esp + k) == Some(zero[k]) {
      SamePage(esp, k);
      BlankKept(mem, sp, argv, esp + k);
    }
    ZerosAreLe();
    WordReads(now, sp, esp, 0);
  }

  lemma ZerosAreLe()
    ensures Zeros(4) == Le(0, 4)
  {
    FourBytes(0);
    hide Le;
  }

  lemma OutsideKept(mem: seq<byte>, hi: nat, argv: seq<CString>, a: nat)
    requires |argv| <= MAX_ARGS && Footprint(argv) <= hi <= |mem| && a < |mem| && !(hi - Footprint(argv) <= a < hi)
    ensures Packed(mem, hi, argv)[a] == mem[a]
  {
    FrameInPlace(mem, hi, argv);
    hide Frame, Padding, Footprint, TableTop;
  }

  // ---- a stack as elf_load makes it --------------------------------------------------------

  /** Sixteen pages, fresh but for the top one, each above the one before it in physical memory as well. */
  ghost predicate FreshStack(mem: seq<byte>, sp: Space) {
    && (forall n :: LOW_PAGE <= n <= TOP_PAGE ==> n in sp && (sp[n] + 1) * SIZE <= |mem|)
    && (forall n :: LOW_PAGE <= n < TOP_PAGE ==> Blank(mem, sp[n]))
    && (forall a, b :: LOW_PAGE <= a < b <= TOP_PAGE ==> sp[a] < sp[b])
  }

  lemma {:induction false} Rises(mem: seq<byte>, sp: Space, a: nat, b: nat)
    requires FreshStack(mem, sp) && LOW_PAGE <= a <= b <= TOP_PAGE
    ensures sp[b] - sp[a] >= b - a
    decreases b - a
  {
    hide Blank;
    if a < b { Rises(mem, sp, a + 1, b); }
  }

  /** The pages are physically as far apart as virtually. */
  predicate Adjoins(sp: Space, n: nat)
    requires n in sp && TOP_PAGE in sp
  {
    sp[n] + (TOP_PAGE - n) == sp[TOP_PAGE]
  }

  lemma WindowFits(mem: seq<byte>, sp: Space, argv: seq<CString>)
    requires FreshStack(mem, sp) && Footprint(argv) <= STACK_PAGES * SIZE
    ensures LOW_PAGE <= ArgcPage(argv) <= TOP_PAGE && ArgcPage(argv) in sp
    ensures Footprint(argv) <= PhysicalTop(sp) <= |mem|
  {
    Rises(mem, sp, LOW_PAGE, TOP_PAGE);
    FootprintBounds(argv);
    hide Footprint, Blank;
  }

  lemma FootprintBounds(argv: seq<CString>)
    ensures Footprint(argv) >= 8 && Footprint(argv) % 4 == 0 && (argv == [] ==> Footprint(argv) == 8)
  {
    if argv == [] { NoArgsFit(); }
    hide Strings;
  }

  lemma AdjoiningRuns(mem: seq<byte>, sp: Space, argv: seq<CString>)
    requires FreshStack(mem, sp) && Footprint(argv) <= STACK_PAGES * SIZE
    requires ArgcPage(argv) in sp && TOP_PAGE in sp && Adjoins(sp, ArgcPage(argv))
    ensures RunsOn(sp, Footprint(argv))
  {
    WindowFits(mem, sp, argv);
    var n0 := ArgcPage(argv);
    forall i: nat | i * SIZE < Footprint(argv) && i <= TOP_PAGE
      ensures RunsAt(sp, i)
    {
      assert n0 <= TOP_PAGE - i;
      Rises(mem, sp, n0, TOP_PAGE - i);
      Rises(mem, sp, TOP_PAGE - i, TOP_PAGE);
    }
    hide Footprint, FreshStack;
  }

  lemma ApartIsSpared(mem: seq<byte>, sp: Space, argv: seq<CString>)
    requires FreshStack(mem, sp) && Footprint(argv) <= STACK_PAGES * SIZE
    requires ArgcPage(argv) in sp && TOP_PAGE in sp && !Adjoins(sp, ArgcPage(argv))
    ensures argv != [] && LOW_PAGE <= ArgcPage(argv) < TOP_PAGE && Spared(sp[ArgcPage(argv)], PhysicalTop(sp), argv)
  {
    WindowFits(mem, sp, argv);
    FootprintBounds(argv);
    hide Footprint;
    Rises(mem, sp, ArgcPage(argv), TOP_PAGE);
    hide FreshStack;
  }

  /** On such a stack the process recovers its arguments exactly when the page argc is due on lies physically as
      far below the top page as it does in the process; a frame that fits the top page is such a case. */
  lemma RecoversIff(mem: seq<byte>, sp: Space, argv: seq<CString>)
    requires FreshStack(mem, sp) && |argv| <= MAX_ARGS && Footprint(argv) <= STACK_PAGES * SIZE
    ensures TOP_PAGE in sp && ArgcPage(argv) in sp && Footprint(argv) <= PhysicalTop(sp) <= |mem|
    ensures ReadArgs(Packed(mem, PhysicalTop(sp), argv), sp, STACK_TOP - Footprint(argv)) == Some(argv) <==>
            Adjoins(sp, ArgcPage(argv))
    ensures Footprint(argv) <= SIZE ==> Adjoins(sp, ArgcPage(argv))
  {
    WindowFits(mem, sp, argv);
    FootprintBounds(argv);
    if Adjoins(sp, ArgcPage(argv)) {
      AdjoiningRuns(mem, sp, argv);
      hide Footprint, ReadArgs, Packed, RunsOn, PhysicalTop;
      RecoversInPlace(mem, sp, argv);
    } else {
      ApartIsSpared(mem, sp, argv);
      hide Footprint, ReadArgs, Packed, Spared, PhysicalTop;
      LostOnBlankPage(mem, sp, argv);
    }
  }

  lemma LongArgcPage(s: CString)
    requires |s| == SIZE
    ensures Footprint([s]) == SIZE + 16 <= STACK_TOP && ArgcPage([s]) == TOP_PAGE - 1
    ensures STACK_TOP - Footprint([s]) == USER_STACK_VA - 16
  {
    LongFootprint(s);
    hide Footprint;
  }

  /** A single argument of 4096 characters, which the kernel writes across two physical pages, is recovered
      exactly when the second stack page is the physical page right below the top one. */
  lemma LongArgumentIff(mem: seq<byte>, sp: Space, s: CString)
    requires FreshStack(mem, sp) && |s| == SIZE
    ensures TOP_PAGE in sp && TOP_PAGE - 1 in sp && Footprint([s]) == SIZE + 16 <= PhysicalTop(sp) <= |mem|
    ensures ReadArgs(Packed(mem, PhysicalTop(sp), [s]), sp, USER_STACK_VA - 16) == Some([s]) <==>
            sp[TOP_PAGE - 1] + 1 == sp[TOP_PAGE]
  {
    hide Footprint, FreshStack, ReadArgs, Packed, PhysicalTop, ArgcPage;
    LongArgcPage(s);
    RecoversIff(mem, sp, [s]);
  }
}
