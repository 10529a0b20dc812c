/** Taking a slot and filling its command FIS (alloc_slot and build_h2d_fis in kernel/ahci.c). */
module AhciCommand {
  import opened Bytes
  import opened AhciProtocol

  /** free_mask of one port; a set bit is a member. */
  class Port {
    var free: set<Slot>

    /** alloc_slot: the lowest free slot, taken out of the mask; -1 when all are busy. */
    method AllocSlot() returns (slot: int)
      modifies this
      ensures slot == -1 ==> old(free) == {} && free == {}
      ensures slot != -1 ==> 0 <= slot < SLOTS && slot in old(free) && free == old(free) - {slot}
      ensures slot != -1 ==> forall j: Slot :: j in old(free) ==> slot <= j
      ensures FirstFree(old(free), 0) == if slot == -1 then None else Some(slot)
    {
      for i := 0 to SLOTS
        invariant free == old(free)
        invariant forall j: Slot :: j < i ==> j !in free
        invariant FirstFree(free, 0) == FirstFree(free, i)
      {
        if i in free {
          free := free - {i};
          return i;
        }
      }
      assert free == {};
      return -1;
    }
  }

  // ---- the command FIS ---------------------------------------------------------------------

  const FIS_SIZE := 64
  const FIS_TYPE_H2D: byte := 0x27
  const COMMAND_BIT: byte := 0x80
  const LBA_MODE: byte := 0x40

  type Lba64 = x: int | 0 <= x < 0x1_0000_0000_0000_0000

  /** What a device reads out of a command FIS. */
  datatype Taskfile = Taskfile(opcode: byte, lba: Lba64, count: uint16, tag: Option<Slot>)

  /** A device's reading of a Register FIS from the host: READ and WRITE FPDMA QUEUED (0x60 and 0x61) have the
      count in the features fields and the tag in bits 7..3 of the count field. */
  function Decode(f: seq<byte>): Option<Taskfile>
    requires |f| == FIS_SIZE
  {
    if f[0] != 0x27 || f[1] != 0x80 || f[7] != 0x40 then None
    else
      Value48([f[4], f[5], f[6], f[8], f[9], f[10]]);
      Value16([f[3], f[11]]);
      Value16([f[12], f[13]]);
      var lba := FromLe([f[4], f[5], f[6], f[8], f[9], f[10]]);
      if f[2] == 0x60 || f[2] == 0x61 then Some(Taskfile(f[2], lba, FromLe([f[3], f[11]]), Some(f[12] / 8)))
      else Some(Taskfile(f[2], lba, FromLe([f[12], f[13]]), None))
  }

  lemma Value16(s: seq<byte>)
    requires |s| == 2
    ensures FromLe(s) < 0x1_0000
  {
    FromLeBound(s);
    PowersOf256();
  }

  lemma Value48(s: seq<byte>)
    requires |s| == 6
    ensures FromLe(s) < 0x1_0000_0000_0000
  {
    FromLeBound(s);
    PowersOf256();
  }

  /** The bytes of a command FIS: a queued command has its count in the features fields and its tag in
      bits 7..3 of the count field. */
  function Fis(cmd: byte, lba: Lba64, count: uint16, tag: Slot): (f: seq<byte>)
    ensures |f| == FIS_SIZE
  {
    var l, n := Le(lba, 6), Le(count, 2);
    var features, field := if IsNcq(cmd) then n else [0, 0], if IsNcq(cmd) then [tag * 8, 0] else n;
    [FIS_TYPE_H2D, COMMAND_BIT, cmd, features[0], l[0], l[1], l[2], LBA_MODE, l[3], l[4], l[5], features[1],
     field[0], field[1]] + Zeros(50)
  }

  /** A device reads back the command, the low 48 bits of the LBA, the count, and, if queued, the tag. */
  lemma FisDecodes(cmd: byte, lba: Lba64, count: uint16, tag: Slot)
    ensures Decode(Fis(cmd, lba, count, tag)) ==
            Some(Taskfile(cmd, lba % 0x1_0000_0000_0000, count,
                          if cmd == 0x60 || cmd == 0x61 then Some(tag) else None))
  {
    var f, l, n := Fis(cmd, lba, count, tag), Le(lba, 6), Le(count, 2);
    LeRoundTrip(lba, 6);
    LeRoundTrip(count, 2);
    PowersOf256();
    assert [f[4], f[5], f[6], f[8], f[9], f[10]] == l;
    assert if IsNcq(cmd) then [f[3], f[11]] == n else [f[12], f[13]] == n;
    hide Le, FromLe;
  }

  lemma PowersOf256()
    ensures Power256(2) == 0x1_0000 && Power256(6) == 0x1_0000_0000_0000
  {
    assert Power256(4) == 0x1_0000_0000 by { assert Power256(2) == 0x1_0000; }
  }

  /** The byte of `x` that counts units of `unit`. */
  function ByteAt(x: nat, unit: nat): byte
    requires unit >= 1
  {
    x / unit % 0x100
  }

  /** The end of build_h2d_fis, where queued and other commands differ. */
  method PutCount(f: array<byte>, cmd: byte, count: uint16, tag: Slot)
    requires f.Length == FIS_SIZE && f[3] == f[11] == 0
    modifies f
    ensures forall i :: 0 <= i < FIS_SIZE && i != 3 && i < 11 ==> f[i] == old(f[i])
    ensures forall i :: 14 <= i < FIS_SIZE ==> f[i] == old(f[i])
    ensures if IsNcq(cmd)
            then f[3] == ByteAt(count, 1) && f[11] == ByteAt(count, 0x100) && f[12] == tag * 8 && f[13] == 0
            else f[12] == ByteAt(count, 1) && f[13] == ByteAt(count, 0x100) && f[3] == 0 && f[11] == 0
  {
    if IsNcq(cmd) {
      f[3] := ByteAt(count, 1);
      f[11] := ByteAt(count, 0x100);
      f[12] := tag % 0x20 * 8;
      f[13] := 0;
    } else {
      f[12] := ByteAt(count, 1);
      f[13] := ByteAt(count, 0x100);
    }
  }

  /** build_h2d_fis. */
  method BuildH2dFis(f: array<byte>, cmd: byte, lba: Lba64, count: uint16, tag: Slot)
    requires f.Length == FIS_SIZE
    modifies f
    ensures f[..] == Fis(cmd, lba, count, tag)
  {
    for i := 0 to FIS_SIZE
      invariant forall j :: 0 <= j < i ==> f[j] == 0
    {
      f[i] := 0;
    }
    f[0] := FIS_TYPE_H2D;
    f[1] := COMMAND_BIT;
    f[2] := cmd;
    f[4] := ByteAt(lba, 1);
    f[5] := ByteAt(lba, 0x100);
    f[6] := ByteAt(lba, 0x1_0000);
    f[7] := LBA_MODE;
    f[8] := ByteAt(lba, 0x100_0000);
    f[9] := ByteAt(lba, 0x1_0000_0000);
    f[10] := ByteAt(lba, 0x100_0000_0000);
    PutCount(f, cmd, count, tag);
    hide ByteAt;
    FieldsAreFis(f[..], cmd, lba, count, tag);
    hide Fis;
  }

  lemma FieldsAreFis(f: seq<byte>, cmd: byte, lba: Lba64, count: uint16, tag: Slot)
    requires |f| == FIS_SIZE && f[0] == FIS_TYPE_H2D && f[1] == COMMAND_BIT && f[2] == cmd && f[7] == LBA_MODE
    requires f[4] == ByteAt(lba, 1) && f[5] == ByteAt(lba, 0x100) && f[6] == ByteAt(lba, 0x1_0000)
    requires f[8] == ByteAt(lba, 0x100_0000) && f[9] == ByteAt(lba, 0x1_0000_0000)
    requires f[10] == ByteAt(lba, 0x100_0000_0000)
    requires if IsNcq(cmd) then f[3] == ByteAt(count, 1) && f[11] == ByteAt(count, 0x100) && f[12] == tag * 8 &&
             f[13] == 0
             else f[12] == ByteAt(count, 1) && f[13] == ByteAt(count, 0x100) && f[3] == 0 && f[11] == 0
    requires forall i :: 14 <= i < FIS_SIZE ==> f[i] == 0
    ensures f == Fis(cmd, lba, count, tag)
  {
    SixBytes(lba);
    TwoBytes(count);
    hide Le;
  }

  lemma SixBytes(x: nat)
    ensures Le(x, 6) == [x % 0x100, x / 0x100 % 0x100, x / 0x1_0000 % 0x100, x / 0x100_0000 % 0x100,
                         x / 0x1_0000_0000 % 0x100, x / 0x100_0000_0000 % 0x100]
  {
    var a := x / 0x100;
    var b := a / 0x100;
    var c := b / 0x100;
    var d := c / 0x100;
    var e := d / 0x100;
    assert b == x / 0x1_0000 && c == x / 0x100_0000 && d == x / 0x1_0000_0000 && e == x / 0x100_0000_0000;
    assert Le(e, 1) == [e % 0x100];
    assert Le(d, 2) == [d % 0x100] + Le(e, 1);
    assert Le(c, 3) == [c % 0x100] + Le(d, 2);
    assert Le(b, 4) == [b % 0x100] + Le(c, 3);
    assert Le(a, 5) == [a % 0x100] + Le(b, 4);
  }
}
