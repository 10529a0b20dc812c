/** USB transfer descriptors and data toggles (kernel/ehci.c). */
module Ehci {
  import opened Bytes

  const PAGE := 4096
  const POINTERS := 5
  const MAX_BULK := 16384
  const MAX_LENGTH: bv32 := 16384

  const TERMINATE: uint32 := 1

  const ACTIVE: bv32 := 0x80
  const CERR_3: bv32 := 0xC00
  const PID_OUT: bv32 := 0
  const PID_IN: bv32 := 0x100
  const PID_SETUP: bv32 := 0x200
  const DT: bv32 := 0x8000_0000
  const PID_MASK: bv32 := 0x300
  /** Active and the four error bits that run_async looks at. */
  const STATUS_MASK: bv32 := 0xF8

  predicate IsPid(pid: bv32) {
    pid == PID_OUT || pid == PID_IN || pid == PID_SETUP
  }

  // ---- the token ---------------------------------------------------------------------------

  function Token(pid: bv32, len: bv32, toggle: bv32): bv32 {
    ACTIVE | CERR_3 | pid | (len << 16) | toggle
  }

  /** The total-bytes field. */
  function LengthField(token: bv32): bv32 {
    (token >> 16) & 0x7FFF
  }

  lemma LengthBits(pid: bv32, len: bv32, toggle: bv32)
    requires pid == 0 || pid == 0x100 || pid == 0x200
    requires toggle == 0 || toggle == 0x8000_0000
    ensures ((0x80 | 0xC00 | pid | (len << 16) | toggle) >> 16) & 0x7FFF == len & 0x7FFF
  {
  }

  lemma LengthFits(len: bv32)
    ensures len & 0x7FFF == len <==> len < 0x8000
  {
  }

  lemma ToggleBit(pid: bv32, len: bv32, toggle: bv32)
    requires pid == 0 || pid == 0x100 || pid == 0x200
    requires (toggle == 0 || toggle == 0x8000_0000) && len < 0x8000
    ensures (0x80 | 0xC00 | pid | (len << 16) | toggle) & 0x8000_0000 == toggle
  {
  }

  lemma LowBits(pid: bv32, len: bv32, toggle: bv32)
    requires pid == 0 || pid == 0x100 || pid == 0x200
    requires toggle == 0 || toggle == 0x8000_0000
    ensures (0x80 | 0xC00 | pid | (len << 16) | toggle) & 0x300 == pid
    ensures (0x80 | 0xC00 | pid | (len << 16) | toggle) & 0xF8 == 0x80
    ensures (0x80 | 0xC00 | pid | (len << 16) | toggle) & 0xC00 == 0xC00
  {
  }

  /** The fields of the token, where section 3.5.3 of the EHCI 1.0 specification has them: the length, in bits 30 to
      16, reads back exactly when it has 15 bits, and then the toggle does, in bit 31; the PID code is in bits 9 and
      8, and of the status and error bits only Active is set; three errors are allowed. */
  lemma TokenFields(pid: bv32, len: bv32, toggle: bv32)
    requires IsPid(pid) && (toggle == 0 || toggle == 0x8000_0000)
    ensures (Token(pid, len, toggle) >> 16) & 0x7FFF == len <==> len < 0x8000
    ensures LengthField(Token(pid, len, toggle)) == (Token(pid, len, toggle) >> 16) & 0x7FFF
    ensures len < 0x8000 ==> Token(pid, len, toggle) & 0x8000_0000 == toggle
    ensures Token(pid, len, toggle) & 0x300 == pid && pid in {0, 0x100, 0x200}
    ensures Token(pid, len, toggle) & 0xF8 == 0x80 && Token(pid, len, toggle) & 0xC00 == 0xC00
  {
    LengthBits(pid, len, toggle);
    LengthFits(len);
    if len < 0x8000 { ToggleBit(pid, len, toggle); }
    LowBits(pid, len, toggle);
  }

  // ---- buffer pointers ---------------------------------------------------------------------

  /** A queue element transfer descriptor. */
  class Qtd {
    var next: uint32
    var alt: uint32
    var token: bv32
    const bufp: array<uint32>

    constructor ()
      ensures fresh(bufp) && bufp.Length == POINTERS
    {
      next, alt, token := 0, 0, 0;
      bufp := new uint32[POINTERS](_ => 0);
    }

    /** qtd_set_buffer. */
    method SetBuffer(buf: uint32)
      requires bufp.Length == POINTERS
      modifies bufp
      ensures bufp[..] == Pointers(buf)
    {
      bufp[0] := buf;
      for i := 1 to POINTERS
        invariant bufp[0] == buf
        invariant forall k :: 1 <= k < i ==> bufp[k] == Wrap32(buf - buf % PAGE + k * PAGE)
      {
        bufp[i] := Wrap32(buf - buf % PAGE + i * PAGE);
      }
    }

    /** build_qtd; `buf` is 0 for a transfer without data. */
    method Build(pid: bv32, len: bv32, toggle: bv32, buf: uint32, nextPhys: uint32)
      requires bufp.Length == POINTERS
      modifies this, bufp
      ensures next == nextPhys && alt == 1 && token == Token(pid, len, toggle)
      ensures bufp[..] == if buf != 0 && len != 0 then Pointers(buf) else seq(POINTERS, _ => 0)
    {
      next := nextPhys;
      alt := TERMINATE;
      token := ACTIVE | CERR_3 | pid | (len << 16) | toggle;
      if buf != 0 && len != 0 {
        SetBuffer(buf);
      } else {
        for i := 0 to POINTERS
          invariant next == nextPhys && alt == TERMINATE && token == Token(pid, len, toggle)
          invariant forall k :: 0 <= k < i ==> bufp[k] == 0
        {
          bufp[i] := 0;
        }
      }
    }
  }

  /** The start address, then the four pages after its own. */
  function Pointers(buf: uint32): (p: seq<uint32>)
    ensures |p| == POINTERS && p[0] == buf
    ensures forall k :: 1 <= k < POINTERS ==> p[k] == Wrap32(buf - buf % PAGE + k * PAGE)
  {
    [buf] + seq(POINTERS - 1, k requires 0 <= k < POINTERS - 1 => Wrap32(buf - buf % PAGE + (k + 1) * PAGE))
  }

  /** Which pointer the controller uses for byte `j`, and the address it forms (section 3.5.4 of the EHCI 1.0
      specification): the low 12 bits of pointer 0 are the offset of the first byte. */
  function PointerFor(p: seq<uint32>, j: nat): nat
    requires |p| == 5
  {
    (p[0] % 4096 + j) / 4096
  }

  function AddressOf(p: seq<uint32>, j: nat): nat
    requires |p| == 5 && PointerFor(p, j) < 5
  {
    var q := p[PointerFor(p, j)];
    q - q % 4096 + (p[0] % 4096 + j) % 4096
  }

  lemma PagePointer(buf: uint32, k: nat)
    requires 1 <= k < POINTERS && buf - buf % PAGE + k * PAGE < 0x1_0000_0000
    ensures Pointers(buf)[k] == buf - buf % PAGE + k * PAGE
    ensures Pointers(buf)[k] % PAGE == 0
  {
  }

  /** Every byte of a transfer the driver accepts is reached, at its own address, for every alignment. */
  lemma EveryByteReached(buf: uint32, len: nat, j: nat)
    requires j < len <= 16384 && buf + len <= 0x1_0000_0000
    ensures PointerFor(Pointers(buf), j) < 5 && AddressOf(Pointers(buf), j) == buf + j
  {
    var o := buf % PAGE + j;
    var k := o / PAGE;
    assert o == k * PAGE + o % PAGE;
    assert buf - buf % PAGE + k * PAGE <= buf + j;
    if k >= 1 { PagePointer(buf, k); }
  }

  /** Five pointers are enough exactly when the offset in the first page and the length fit five pages. */
  lemma FivePagesIff(buf: uint32, len: nat)
    requires len > 0
    ensures (forall j :: 0 <= j < len ==> PointerFor(Pointers(buf), j) < 5) <==> buf % 4096 + len <= 20480
  {
    if buf % PAGE + len > POINTERS * PAGE {
      assert PointerFor(Pointers(buf), len - 1) >= POINTERS;
    }
  }

  predicate FitsAligned(off: nat, len: nat) {
    off + len <= 20480
  }

  /** The driver's limit of 16384 bytes is safe for every alignment, with one byte to spare. */
  lemma LimitIff(len: nat)
    ensures (forall off: nat :: off < 4096 ==> FitsAligned(off, len)) <==> len <= 16385
  {
    if len > MAX_BULK + 1 {
      assert !FitsAligned(PAGE - 1, len);
    }
  }

  // ---- toggles -----------------------------------------------------------------------------

  /** How many packets of at most `max` bytes carry `len` bytes. */
  function Packets(len: nat, max: nat): (n: nat)
    requires max >= 1
  {
    if len <= max then 1 else 1 + Packets(len - max, max)
  }

  lemma {:induction false} ChunksArePackets(len: nat, max: nat)
    requires len >= 1 && max >= 1
    ensures (len + max - 1) / max == Packets(len, max)
  {
    if len > max {
      ChunksArePackets(len - max, max);
      DivModUnique(len + max - 1, max, (len - 1) / max + 1, (len - 1) % max);
    } else {
      DivModUnique(len + max - 1, max, 1, len - 1);
    }
  }

  /** One transfer: its length (as the 32 bits of a C int, so a negative one is large), the endpoint's packet
      size, the sizes of the packets the device exchanged, and the token as the controller left it, or nothing
      after an error or a timeout. */
  datatype Xfer = Xfer(buf: uint32, len: bv32, max: nat, packets: seq<nat>, token: Option<bv32>)

  function Size(x: Xfer): (n: nat)
    ensures x.len != 0 ==> n > 0
  {
    x.len as nat
  }

  /** The bytes a finished transfer did not move. */
  function Remaining(token: bv32): nat {
    LengthField(token) as nat
  }

  predicate Accepted(x: Xfer) {
    x.len != 0 && x.len <= MAX_LENGTH && x.max >= 1
  }

  /** What an accepted transfer asks for reads back from its token, and its bytes are all reached. */
  lemma AcceptedReadsBack(pid: bv32, x: Xfer, toggle: bv32, j: nat)
    requires 0 < x.len <= 16384 && IsPid(pid) && (toggle == 0 || toggle == 0x8000_0000)
    requires x.buf + Size(x) <= 0x1_0000_0000 && j < Size(x)
    ensures (Token(pid, x.len, toggle) >> 16) & 0x7FFF == x.len && Token(pid, x.len, toggle) & 0x8000_0000 == toggle
    ensures PointerFor(Pointers(x.buf), j) < 5 && AddressOf(Pointers(x.buf), j) == x.buf + j
  {
    TokenFields(pid, x.len, toggle);
    SmallLength(x.len);
    EveryByteReached(x.buf, Size(x), j);
  }

  lemma SmallLength(len: bv32)
    requires len <= 16384
    ensures len as nat <= 16384 && len < 0x8000
  {
  }

  // ---- the device's side -------------------------------------------------------------------

  function Sum(ps: seq<nat>): nat {
    if ps == [] then 0 else ps[0] + Sum(ps[1..])
  }

  /** The packet sizes of a transfer of `len` bytes that ended well: full packets until the bytes are all there,
      or one shorter than `max` ends it early (section 5.8.3 of the USB 2.0 specification). */
  predicate Completes(ps: seq<nat>, len: nat, max: nat)
    decreases |ps|
  {
    && |ps| >= 1 && ps[0] <= max && ps[0] <= len
    && if ps[0] == max && ps[0] < len then Completes(ps[1..], len - ps[0], max) else |ps| == 1
  }

  /** How many packets moved, from the bytes left over: a transfer that ended early had one short packet. */
  function DevicePackets(len: nat, left: nat, max: nat): nat
    requires max >= 1 && left <= len
  {
    if left == 0 then Packets(len, max) else (len - left) / max + 1
  }

  lemma OneMore(s: nat, max: nat)
    requires max >= 1
    ensures (s + max) / max == s / max + 1
  {
    DivModUnique(s + max, max, s / max + 1, s % max);
  }

  lemma SmallQuotient(s: nat, max: nat)
    requires s < max
    ensures s / max == 0
  {
  }

  lemma {:induction false} PacketsCounted(ps: seq<nat>, len: nat, max: nat)
    requires max >= 1 && Completes(ps, len, max)
    ensures Sum(ps) <= len && |ps| == DevicePackets(len, len - Sum(ps), max)
  {
    if ps[0] == max && ps[0] < len {
      PacketsCounted(ps[1..], len - max, max);
      OneMore(Sum(ps[1..]), max);
    } else {
      assert Sum(ps[1..]) == 0;
      if ps[0] < max { SmallQuotient(ps[0], max); }
    }
  }

  /** What the device exchanged and what the controller reports fit together. A refused transfer never gets to
      the device; one that failed may have moved any number of packets. */
  predicate Reported(x: Xfer) {
    && x.max >= 1
    && (!Accepted(x) ==> x.packets == [])
    && (Accepted(x) && x.token.Some? ==>
          Completes(x.packets, Size(x), x.max) && Remaining(x.token.value) == Size(x) - Sum(x.packets))
  }

  /** The driver's toggle after one call: a call that is refused or fails leaves it alone. */
  function NextToggle(t: nat, x: Xfer): nat
    requires x.max >= 1
  {
    if Accepted(x) && x.token.Some? then (t + Packets(Size(x), x.max)) % 2 else t
  }

  /** The device's flips with every packet. */
  function DeviceToggle(t: nat, x: Xfer): nat {
    (t + |x.packets|) % 2
  }

  /** Does one transfer leave the two toggles as they stood to each other: as many packets moved as were asked
      for, up to an even number; for a failed one, an even number moved. */
  predicate InStep(x: Xfer)
    requires Reported(x)
  {
    if Accepted(x) && x.token.Some? && Remaining(x.token.value) <= Size(x)
    then Packets(Size(x), x.max) % 2 == DevicePackets(Size(x), Remaining(x.token.value), x.max) % 2
    else |x.packets| % 2 == 0
  }

  lemma InStepIff(t: nat, x: Xfer)
    requires Reported(x) && t <= 1
    ensures NextToggle(t, x) == DeviceToggle(t, x) <==> InStep(x)
    ensures NextToggle(t, x) != DeviceToggle(t, x) ==> NextToggle(t, x) == 1 - DeviceToggle(t, x)
  {
    hide Packets, DevicePackets, Size, Remaining, Completes;
    if Accepted(x) && x.token.Some? { PacketsCounted(x.packets, Size(x), x.max); }
  }

  predicate AllReported(xs: seq<Xfer>) {
    forall i :: 0 <= i < |xs| ==> Reported(xs[i])
  }

  function ToggleAfter(t: nat, xs: seq<Xfer>): nat
    requires AllReported(xs)
  {
    if xs == [] then t else NextToggle(ToggleAfter(t, xs[..|xs| - 1]), xs[|xs| - 1])
  }

  function DeviceAfter(t: nat, xs: seq<Xfer>): nat {
    if xs == [] then t else DeviceToggle(DeviceAfter(t, xs[..|xs| - 1]), xs[|xs| - 1])
  }

  function Slips(xs: seq<Xfer>): nat
    requires AllReported(xs)
  {
    if xs == [] then 0 else Slips(xs[..|xs| - 1]) + if InStep(xs[|xs| - 1]) then 0 else 1
  }

  /** After any sequence of transfers the driver's toggle is the device's exactly when an even number of them
      were out of step. */
  lemma {:induction false} TogglesAgreeIff(t: nat, xs: seq<Xfer>)
    requires AllReported(xs) && t <= 1
    ensures ToggleAfter(t, xs) <= 1 && DeviceAfter(t, xs) <= 1
    ensures ToggleAfter(t, xs) == DeviceAfter(t, xs) <==> Slips(xs) % 2 == 0
  {
    hide InStep, Reported;
    if xs != [] {
      var n := |xs| - 1;
      TogglesAgreeIff(t, xs[..n]);
      InStepIff(ToggleAfter(t, xs[..n]), xs[n]);
      InStepIff(1 - ToggleAfter(t, xs[..n]), xs[n]);
      hide Accepted;
    }
  }

  /** Refused, or done with nothing left over. */
  predicate FullLength(x: Xfer) {
    Accepted(x) ==> x.token.Some? && Remaining(x.token.value) == 0
  }

  /** Over any sequence of refused and full-length transfers the driver's toggle is the device's. */
  lemma {:induction false} FullLengthAgrees(t: nat, xs: seq<Xfer>)
    requires AllReported(xs) && t <= 1 && forall i :: 0 <= i < |xs| ==> FullLength(xs[i])
    ensures ToggleAfter(t, xs) == DeviceAfter(t, xs)
  {
    if xs != [] {
      var n := |xs| - 1;
      FullLengthAgrees(t, xs[..n]);
      TogglesAgreeIff(t, xs[..n]);
      FullLengthInStep(xs[n]);
      InStepIff(ToggleAfter(t, xs[..n]), xs[n]);
      hide InStep, Reported, FullLength;
    }
  }

  lemma FullLengthInStep(x: Xfer)
    requires Reported(x) && FullLength(x)
    ensures InStep(x)
  {
  }

  /** A short packet: 1024 bytes asked for in packets of 512, and the device sends 100. The driver counts two
      packets, the device one. */
  lemma ShortPacketSlips(t: nat, buf: uint32)
    requires t <= 1
    ensures var x := Xfer(buf, 1024, 512, [100], Some(924 << 16));
            Reported(x) && NextToggle(t, x) == 1 - DeviceToggle(t, x)
  {
    var x := Xfer(buf, 1024, 512, [100], Some(924 << 16));
    assert LengthField(924 << 16) == 924;
    assert Sum(x.packets[1..]) == 0;
    assert Packets(512, 512) == 1;
    InStepIff(t, x);
  }

  class Endpoint {
    /** The caller's toggle variable. */
    var toggle: nat
    const q: Qtd

    ghost predicate Valid()
      reads this, q
    {
      toggle <= 1 && q.bufp.Length == POINTERS
    }

    constructor ()
      ensures Valid() && toggle == 0 && fresh(q) && fresh(q.bufp)
    {
      toggle := 0;
      q := new Qtd();
    }

    /** ehci_bulk_xfer: the bytes moved, or -1. The toggle flips once per packet asked for. `x` says what becomes
        of the transfer in the meantime. */
    method Bulk(pid: bv32, x: Xfer) returns (n: int)
      requires Valid() && x.max >= 1
      modifies this`toggle, q, q.bufp
      ensures Valid()
      ensures !(0 < x.len <= 16384) || x.token.None? ==> n == -1 && toggle == old(toggle)
      ensures 0 < x.len <= 16384 && x.token.Some? ==> n == Size(x) - ((x.token.value >> 16) & 0x7FFF) as nat
      ensures 0 < x.len <= 16384 && x.token.Some? ==> toggle == (old(toggle) + Packets(Size(x), x.max)) % 2
      ensures Reported(x) && 0 < x.len <= 16384 && x.token.Some? ==> n == Sum(x.packets)
      ensures toggle == NextToggle(old(toggle), x)
      ensures 0 < x.len <= 16384 ==>
                q.bufp[..] == (if x.buf != 0 then Pointers(x.buf) else seq(5, _ => 0)) &&
                q.next == 1 && q.token == Token(pid, x.len, if old(toggle) == 1 then 0x8000_0000 else 0)
    {
      hide Token, Size, Packets, Pointers;
      if x.len == 0 || x.len > MAX_LENGTH { return -1; }
      q.Build(pid, x.len, if toggle == 1 then DT else 0, x.buf, TERMINATE);
      if x.token.None? { return -1; }
      ChunksArePackets(Size(x), x.max);
      var chunks := (Size(x) + x.max - 1) / x.max;
      if chunks % 2 == 1 { toggle := 1 - toggle; }
      n := Size(x) - Remaining(x.token.value);
    }
  }
}
