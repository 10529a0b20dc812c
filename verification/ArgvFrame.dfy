/** The bytes elf_setup_args puts on a new process's stack (kernel/elf.c), and where in physical memory. */
module ArgvFrame {
  import opened Bytes

  const USER_STACK_VA := 0x4010_0000
  /** The stack window of 16 pages, of which the kernel fills the top one. */
  const STACK_PAGES := 16
  const STACK_LOW := USER_STACK_VA + SIZE - STACK_PAGES * SIZE
  const STACK_TOP := USER_STACK_VA + SIZE
  const SIZE := 4096
  const MAX_ARGS := 128
  /** What the page allocator can manage: 256 MiB. */
  const MAX_RAM := 0x1000_0000

  /** The arguments that survive: the kernel's table has room for MAX_ARGS. */
  function Kept(argv: seq<CString>): seq<CString> {
    if |argv| <= MAX_ARGS then argv else argv[..MAX_ARGS]
  }

  // ---- the layout --------------------------------------------------------------------------

  /** The bytes of a C string, with its NUL. */
  function Stored(s: CString): (b: seq<byte>)
    ensures |b| == |s| + 1
  {
    seq(|s|, i requires 0 <= i < |s| => s[i] as byte) + [0]
  }

  /** Strings `i` and up, in the order they lie in memory. */
  function Strings(argv: seq<CString>, i: nat): (b: seq<byte>)
    requires i <= |argv|
    decreases |argv| - i
  {
    if i == |argv| then [] else Stored(argv[i]) + Strings(argv, i + 1)
  }

  /** The offset of string `i` in the page; negative when it starts below the page. */
  function StringOffset(argv: seq<CString>, i: nat): int
    requires i <= |argv|
  {
    SIZE - |Strings(argv, i)|
  }

  /** The argv entries `i` and up, as stored. */
  function Pointers(argv: seq<CString>, i: nat): (b: seq<byte>)
    requires i <= |argv|
    ensures |b| == 4 * (|argv| - i)
    decreases |argv| - i
  {
    if i == |argv| then [] else Le(Address(StringOffset(argv, i)), 4) + Pointers(argv, i + 1)
  }

  function Address(off: int): uint32 {
    Wrap32(USER_STACK_VA + off)
  }

  /** From the stack pointer up: argc, the argv entries, NULL, whatever was in the padding, the strings. */
  function Frame(argv: seq<CString>, pad: seq<byte>): seq<byte>
    requires |argv| <= MAX_ARGS
  {
    Le(|argv|, 4) + (Pointers(argv, 0) + (Le(0, 4) + (pad + Strings(argv, 0))))
  }

  /** Where the pointer table ends: below the strings, on a word boundary. */
  function TableTop(hi: nat, argv: seq<CString>): int {
    hi - (|Strings(argv, 0)| + 3) / 4 * 4
  }

  /** The bytes between the pointer table and the strings, which nobody writes. */
  function Padding(mem: seq<byte>, hi: nat, argv: seq<CString>): (b: seq<byte>)
    requires hi <= |mem| && 0 <= TableTop(hi, argv)
    ensures |b| == (|Strings(argv, 0)| + 3) / 4 * 4 - |Strings(argv, 0)|
  {
    mem[TableTop(hi, argv)..hi - |Strings(argv, 0)|]
  }

  /** How far below the top of the stack the frame reaches. */
  function Footprint(argv: seq<CString>): nat {
    (|Strings(argv, 0)| + 3) / 4 * 4 + 4 * (|argv| + 2)
  }

  /** Physical memory with the frame for a page that ends at `hi` written into it. */
  function Packed(mem: seq<byte>, hi: nat, argv: seq<CString>): (r: seq<byte>)
    requires |argv| <= MAX_ARGS && Footprint(argv) <= hi <= |mem|
    ensures |r| == |mem|
  {
    mem[..hi - Footprint(argv)] + Frame(argv, Padding(mem, hi, argv)) + mem[hi..]
  }

  lemma {:induction false} StringsGrow(argv: seq<CString>, i: nat)
    requires i < |argv|
    ensures |Strings(argv, i)| == |argv[i]| + 1 + |Strings(argv, i + 1)|
    ensures |Strings(argv, 0)| >= |Strings(argv, i)|
  {
    if i > 0 { StringsGrow(argv, i - 1); }
  }

  // ---- how far the frame reaches -----------------------------------------------------------

  /** The characters of all arguments, with their NULs. */
  function Characters(argv: seq<CString>): nat {
    if argv == [] then 0 else Characters(argv[..|argv| - 1]) + |argv[|argv| - 1]| + 1
  }

  lemma {:induction false} StringsAre(argv: seq<CString>, i: nat)
    requires i <= |argv|
    ensures |Strings(argv, i)| + Characters(argv[..i]) == Characters(argv)
    decreases |argv| - i
  {
    if i == |argv| {
      assert argv[..i] == argv;
    } else {
      StringsAre(argv, i + 1);
      assert argv[..i + 1][..i] == argv[..i];
    }
  }

  /** The frame has no slack: the characters, less than four bytes of padding, a word for each argument, one for
      NULL and one for argc. */
  lemma FootprintIs(argv: seq<CString>)
    ensures Footprint(argv) % 4 == 0
    ensures 0 <= Footprint(argv) - (Characters(argv) + 4 * |argv| + 8) < 4
  {
    hide Strings, Characters;
    StringsAre(argv, 0);
    NoCharacters(argv);
  }

  lemma NoCharacters(argv: seq<CString>)
    ensures Characters(argv[..0]) == 0
  {
  }

  lemma NoArgsFit()
    ensures Footprint([]) == 8
  {
  }

  lemma AboveKept(mem: seq<byte>, hi: nat, argv: seq<CString>)
    requires |argv| <= MAX_ARGS && Footprint(argv) <= hi <= |mem|
    ensures Packed(mem, hi, argv)[hi..] == mem[hi..]
  {
    hide Strings, Pointers, Le;
    assert |Frame(argv, Padding(mem, hi, argv))| == Footprint(argv);
  }

  lemma FrameStarts(argv: seq<CString>, pad: seq<byte>)
    requires |argv| <= MAX_ARGS && |pad| == (|Strings(argv, 0)| + 3) / 4 * 4 - |Strings(argv, 0)|
    ensures |Frame(argv, pad)| == Footprint(argv)
    ensures Frame(argv, pad)[..4] == Le(|argv|, 4) && Frame(argv, pad)[0] == |argv|
  {
    FourBytes(|argv|);
    assert Frame(argv, pad)[0] == Le(|argv|, 4)[0];
    hide Strings, Pointers, Le;
  }

  lemma TopIsAbove(hi: nat, argv: seq<CString>)
    requires Footprint(argv) <= hi
    ensures 0 <= TableTop(hi, argv) <= hi
  {
    hide Strings;
  }

  lemma PaddingFits(mem: seq<byte>, hi: nat, argv: seq<CString>)
    requires Footprint(argv) <= hi <= |mem|
    ensures 0 <= TableTop(hi, argv) <= hi && |Padding(mem, hi, argv)| ==
            (|Strings(argv, 0)| + 3) / 4 * 4 - |Strings(argv, 0)|
    ensures Footprint(argv) >= 8
  {
    hide Strings;
  }

  lemma SliceOf(a: seq<byte>, f: seq<byte>, c: seq<byte>)
    requires |f| >= 4
    ensures (a + f + c)[|a|..|a| + 4] == f[..4] && (a + f + c)[|a|] == f[0]
  {
  }

  lemma LowestByte(mem: seq<byte>, hi: nat, argv: seq<CString>)
    requires |argv| <= MAX_ARGS && Footprint(argv) <= hi <= |mem|
    ensures Packed(mem, hi, argv)[hi - Footprint(argv)..hi - Footprint(argv) + 4] == Le(|argv|, 4)
    ensures Packed(mem, hi, argv)[hi - Footprint(argv)] == |argv|
  {
    hide Strings, Pointers, Frame, Padding, Le, Power256, Footprint, TableTop;
    TopIsAbove(hi, argv);
    PaddingFits(mem, hi, argv);
    FrameStarts(argv, Padding(mem, hi, argv));
    SliceOf(mem[..hi - Footprint(argv)], Frame(argv, Padding(mem, hi, argv)), mem[hi..]);
  }

  lemma PackedPage(mem: seq<byte>, base: nat, argv: seq<CString>)
    requires |argv| <= MAX_ARGS && Footprint(argv) <= base + SIZE <= |mem| && Footprint(argv) <= SIZE
    ensures Packed(mem, base + SIZE, argv)[base..base + SIZE][SIZE - Footprint(argv)..] ==
            Frame(argv, Padding(mem, base + SIZE, argv))
    ensures Packed(mem, base + SIZE, argv)[..base] == mem[..base]
  {
    hide Strings, Pointers, Le;
    var lo := base + SIZE - Footprint(argv);
    var f := Frame(argv, Padding(mem, base + SIZE, argv));
    assert |f| == Footprint(argv);
    hide Frame, Padding;
    assert Packed(mem, base + SIZE, argv)[lo..base + SIZE] == f;
  }

  predicate SameOutside(mem: seq<byte>, now: seq<byte>, base: nat)
    requires base + SIZE <= |mem| == |now|
  {
    now[..base] == mem[..base] && now[base + SIZE..] == mem[base + SIZE..]
  }

  /** No byte outside the page is overwritten with something else, whatever the memory holds, exactly when the
      frame fits the page; the kernel does not check that it does. */
  lemma StaysInPageIff(n: nat, base: nat, argv: seq<CString>)
    requires |argv| <= MAX_ARGS && Footprint(argv) <= base + SIZE <= n <= MAX_RAM
    ensures (forall mem: seq<byte> :: |mem| == n ==> SameOutside(mem, Packed(mem, base + SIZE, argv), base)) <==>
            Footprint(argv) <= SIZE
  {
    if Footprint(argv) <= SIZE {
      forall mem: seq<byte> | |mem| == n
        ensures SameOutside(mem, Packed(mem, base + SIZE, argv), base)
      {
        PackedPage(mem, base, argv);
        AboveKept(mem, base + SIZE, argv);
      }
    } else {
      NoArgsFit();
      var lo := base + SIZE - Footprint(argv);
      var mem := Zeros(n);
      LowestByte(mem, base + SIZE, argv);
      assert Packed(mem, base + SIZE, argv)[..base][lo] != mem[..base][lo];
      assert !SameOutside(mem, Packed(mem, base + SIZE, argv), base);
    }
  }

  lemma LongFootprint(s: CString)
    requires |s| == SIZE
    ensures Footprint([s]) == SIZE + 16
  {
    assert Strings([s], 0) == Stored(s) + Strings([s], 1);
    assert |Strings([s], 0)| == SIZE + 1;
    hide Strings;
  }

  /** A single argument of 4096 characters: argc is written 16 bytes below the page. */
  lemma LongArgumentOverflows(mem: seq<byte>, base: nat, s: CString)
    requires |s| == SIZE && base + SIZE <= |mem| && base >= SIZE
    ensures Footprint([s]) == SIZE + 16
    ensures Packed(mem, base + SIZE, [s])[base - 16..base - 12] == Le(1, 4)
  {
    LongFootprint(s);
    LowestByte(mem, base + SIZE, [s]);
    hide Strings, Packed;
  }
}
