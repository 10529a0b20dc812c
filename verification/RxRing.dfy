/** The receive ring the network driver shares with the e1000 (kernel/e1000.c). Device and driver take turns
    at single memory and register accesses, in any order. */
module RxRing {
  import opened Bytes

  const RING := 16
  const BUF_SIZE := 2048
  const MIN_FRAME := 14
  const MAX_FRAME := 1518

  type Index = x: int | 0 <= x < RING
  type Frame = f: seq<byte> | |f| <= BUF_SIZE

  type Buffer = b: seq<byte> | |b| == BUF_SIZE witness Zeros(BUF_SIZE)

  /** A descriptor and the buffer it points to. */
  datatype Desc = Desc(done: bool, length: nat, buf: Buffer)

  /** Where the drain loop is. */
  datatype Pc =
    | Head            // about to look at the DD bit
    | Found(len: nat) // DD was set and the length is read
    | Handed          // the frame, if its size is right, went to net_rx_frame
    | Cleared         // the status byte is zero again
    | Returned        // RDT is written, rx_idx is about to move on

  /** `received` are the frames the device wrote back, `delivered` those net_rx_frame got, `given` how many
      descriptors went back to the device. The device may be in the middle of writing `dma`. */
  datatype State = State(ring: seq<Desc>, rdh: Index, rdt: Index, rxIdx: Index, pc: Pc, dma: Option<Frame>,
                         received: seq<Frame>, delivered: seq<Frame>, given: nat)

  function Initial(): State {
    State(seq(RING, _ => Desc(false, 0, Zeros(BUF_SIZE))), 0, RING - 1, 0, Head, None, [], [], 0)
  }

  datatype Action =
    | WriteData(frame: Frame) // the device starts a frame: its bytes go into the buffer at RDH
    | WriteBack               // and then length and DD into the descriptor, and RDH moves on
    | Advance                 // the driver's next access

  function Put(s: State, i: Index, d: Desc): State
    requires |s.ring| == RING
  {
    s.(ring := s.ring[i := d])
  }

  predicate GoodSize(n: nat) {
    MIN_FRAME <= n <= MAX_FRAME
  }

  function DriverStep(s: State): State
    requires |s.ring| == RING
  {
    var d := s.ring[s.rxIdx];
    match s.pc
    case Head => if d.done then s.(pc := Found(d.length)) else s
    case Found(len) =>
      if GoodSize(len) then s.(pc := Handed, delivered := s.delivered + [d.buf[..len]]) else s.(pc := Handed)
    case Handed => Put(s.(pc := Cleared), s.rxIdx, d.(done := false))
    case Cleared => s.(pc := Returned, rdt := s.rxIdx, given := s.given + 1)
    case Returned => s.(pc := Head, rxIdx := (s.rxIdx + 1) % RING)
  }

  /** The device owns the descriptors from RDH up to, not including, RDT. An action that is not possible
      leaves the state alone. */
  function Step(s: State, a: Action): State
    requires |s.ring| == RING
  {
    match a
    case WriteData(f) =>
      if s.dma.Some? || s.rdh == s.rdt then s
      else
        var d := s.ring[s.rdh];
        Put(s.(dma := Some(f)), s.rdh, d.(buf := f + d.buf[|f|..]))
    case WriteBack =>
      if s.dma.None? then s
      else
        var d := s.ring[s.rdh];
        Put(s.(dma := None, rdh := (s.rdh + 1) % RING, received := s.received + [s.dma.value]), s.rdh,
            d.(length := |s.dma.value|, done := true))
    case Advance => DriverStep(s)
  }

  function Run(acts: seq<Action>): (s: State)
    ensures |s.ring| == RING
  {
    if acts == [] then Initial() else Step(Run(acts[..|acts| - 1]), acts[|acts| - 1])
  }

  /** The frames of 14 to 1518 bytes, which is what an Ethernet frame has without its checksum. */
  function Kept(fs: seq<Frame>): seq<Frame> {
    if fs == [] then []
    else
      var f := fs[|fs| - 1];
      Kept(fs[..|fs| - 1]) + if 14 <= |f| <= 1518 then [f] else []
  }

  // ---- the invariant -----------------------------------------------------------------------

  /** How many frames the driver is done with. */
  function Taken(s: State): nat {
    if s.pc.Handed? || s.pc.Cleared? then s.given + 1 else s.given
  }

  /** Frame `i` of all received lies in its descriptor. */
  ghost predicate Holds(s: State, i: nat)
    requires |s.ring| == RING && i < |s.received|
  {
    var d := s.ring[i % RING];
    d.length == |s.received[i]| && d.buf[..|s.received[i]|] == s.received[i]
  }

  /** Is descriptor `i % RING`, for the `i`-th use of the ring, waiting for the driver? */
  predicate Waiting(s: State, i: nat) {
    s.given <= i < |s.received| && !(s.pc.Cleared? && i == s.given)
  }

  ghost predicate Inv(s: State) {
    && |s.ring| == RING
    && s.given <= |s.received| <= s.given + RING - 1
    && s.rdh == |s.received| % RING
    && s.rdt == (s.given + RING - 1) % RING
    && s.rxIdx == (if s.pc.Returned? then (s.given + RING - 1) % RING else s.given % RING)
    && (s.pc.Returned? ==> s.given >= 1)
    && (s.pc.Found? || s.pc.Handed? || s.pc.Cleared? ==> s.given < |s.received|)
    && (s.pc.Found? ==> s.pc.len == |s.received[s.given]|)
    && (forall i :: s.given <= i < s.given + RING ==> (s.ring[i % RING].done <==> Waiting(s, i)))
    && (forall i :: s.given <= i < |s.received| ==> Holds(s, i))
    && (s.dma.Some? ==> |s.received| < s.given + RING - 1 && DataWritten(s))
    && Taken(s) <= |s.received| && s.delivered == Kept(s.received[..Taken(s)])
  }

  /** The frame in progress is in the buffer at RDH. */
  ghost predicate DataWritten(s: State)
    requires |s.ring| == RING && s.dma.Some?
  {
    s.ring[s.rdh].buf[..|s.dma.value|] == s.dma.value
  }

  lemma ModApart(a: nat, b: nat)
    requires a < b < a + RING
    ensures a % RING != b % RING
  {
  }

  lemma NextMod(a: nat)
    ensures (a % RING + 1) % RING == (a + 1) % RING
    ensures (a + 1 + RING - 1) % RING == a % RING
  {
    var q, r := a / RING, a % RING;
    if r == RING - 1 { DivModUnique(a + 1, RING, q + 1, 0); } else { DivModUnique(a + 1, RING, q, r + 1); }
    DivModUnique(a + RING, RING, q + 1, r);
  }

  lemma InitialInv()
    ensures Inv(Initial())
  {
  }

  lemma {:induction false} KeptMore(fs: seq<Frame>, n: nat)
    requires n < |fs|
    ensures Kept(fs[..n + 1]) == Kept(fs[..n]) + if GoodSize(|fs[n]|) then [fs[n]] else []
  {
    assert fs[..n + 1][..n] == fs[..n];
  }

  lemma HeadKeeps(s: State)
    requires Inv(s) && s.pc.Head?
    ensures Inv(DriverStep(s))
  {
    var r := DriverStep(s);
    assert s.ring[s.given % RING].done <==> Waiting(s, s.given);
    if s.ring[s.rxIdx].done { assert Holds(s, s.given); }
    assert r.ring == s.ring && r.received == s.received;
    assert forall i :: s.given <= i < |s.received| ==> (Holds(r, i) <==> Holds(s, i));
  }

  lemma FoundKeeps(s: State)
    requires Inv(s) && s.pc.Found?
    ensures Inv(DriverStep(s))
  {
    var r := DriverStep(s);
    assert Holds(s, s.given);
    KeptMore(s.received, s.given);
    assert r.ring == s.ring && r.received == s.received;
    assert forall i :: s.given <= i < |s.received| ==> (Holds(r, i) <==> Holds(s, i));
  }

  lemma HandedKeeps(s: State)
    requires Inv(s) && s.pc.Handed?
    ensures Inv(DriverStep(s))
  {
    var r := DriverStep(s);
    forall i | s.given <= i < s.given + RING ensures r.ring[i % RING].done <==> Waiting(r, i) {
      assert s.ring[i % RING].done <==> Waiting(s, i);
      if i > s.given { ModApart(s.given, i); }
    }
    forall i | s.given <= i < |s.received| ensures Holds(r, i) {
      assert Holds(s, i);
      if i > s.given { ModApart(s.given, i); }
    }
    if s.dma.Some? { ModApart(s.given, |s.received|); }
  }

  lemma ClearedKeeps(s: State)
    requires Inv(s) && s.pc.Cleared?
    ensures Inv(DriverStep(s))
  {
    var r := DriverStep(s);
    NextMod(s.given);
    forall i | r.given <= i < r.given + RING ensures r.ring[i % RING].done <==> Waiting(r, i) {
      if i == s.given + RING {
        assert i % RING == s.given % RING;
        assert s.ring[s.given % RING].done <==> Waiting(s, s.given);
      } else {
        assert s.ring[i % RING].done <==> Waiting(s, i);
      }
    }
    forall i | r.given <= i < |r.received| ensures Holds(r, i) {
      assert Holds(s, i);
    }
  }

  lemma ReturnedKeeps(s: State)
    requires Inv(s) && s.pc.Returned?
    ensures Inv(DriverStep(s))
  {
    var r := DriverStep(s);
    NextMod(s.given - 1);
    assert r.rxIdx == s.given % RING;
    forall i | r.given <= i < r.given + RING ensures r.ring[i % RING].done <==> Waiting(r, i) {
      assert s.ring[i % RING].done <==> Waiting(s, i);
    }
    forall i | r.given <= i < |r.received| ensures Holds(r, i) {
      assert Holds(s, i);
    }
  }

  /** RDH and RDT meet exactly when one descriptor is left: a full ring. */
  lemma FullIff(s: State)
    requires Inv(s)
    ensures s.rdh == s.rdt <==> |s.received| == s.given + 15
  {
    if |s.received| < s.given + RING - 1 { ModApart(|s.received|, s.given + RING - 1); }
  }

  lemma WriteDataKeeps(s: State, f: Frame)
    requires Inv(s)
    ensures Inv(Step(s, WriteData(f)))
  {
    FullIff(s);
    var r := Step(s, WriteData(f));
    if s.dma.None? && s.rdh != s.rdt {
      forall i | s.given <= i < s.given + RING ensures r.ring[i % RING].done <==> Waiting(r, i) {
        assert s.ring[i % RING].done <==> Waiting(s, i);
      }
      forall i | s.given <= i < |s.received| ensures Holds(r, i) {
        assert Holds(s, i);
        ModApart(i, |s.received|);
      }
      assert r.ring[s.rdh].buf[..|f|] == f;
    }
  }

  lemma WriteBackKeeps(s: State)
    requires Inv(s)
    ensures Inv(Step(s, WriteBack))
  {
    var r := Step(s, WriteBack);
    if s.dma.Some? {
      NextMod(|s.received|);
      assert r.received[..Taken(r)] == s.received[..Taken(s)];
      forall i | s.given <= i < s.given + RING ensures r.ring[i % RING].done <==> Waiting(r, i) {
        assert s.ring[i % RING].done <==> Waiting(s, i);
        if i < |s.received| { ModApart(i, |s.received|); }
        if i > |s.received| { ModApart(|s.received|, i); }
      }
      forall i | r.given <= i < |r.received| ensures Holds(r, i) {
        if i < |s.received| {
          assert Holds(s, i);
          ModApart(i, |s.received|);
        }
      }
    }
  }

  lemma StepKeeps(s: State, a: Action)
    requires Inv(s)
    ensures Inv(Step(s, a))
  {
    hide Inv, DriverStep;
    match a
    case WriteData(f) => WriteDataKeeps(s, f);
    case WriteBack => WriteBackKeeps(s);
    case Advance => DriverKeeps(s);
  }

  lemma DriverKeeps(s: State)
    requires Inv(s)
    ensures Inv(DriverStep(s))
  {
    hide DriverStep, Kept, Waiting, Holds;
    match s.pc
    case Head => HeadKeeps(s);
    case Found(_) => FoundKeeps(s);
    case Handed => HandedKeeps(s);
    case Cleared => ClearedKeeps(s);
    case Returned => ReturnedKeeps(s);
  }

  lemma {:induction false} RunInv(acts: seq<Action>)
    ensures Inv(Run(acts))
  {
    hide Inv, Step;
    if acts == [] {
      InitialInv();
    } else {
      RunInv(acts[..|acts| - 1]);
      StepKeeps(Run(acts[..|acts| - 1]), acts[|acts| - 1]);
    }
  }

  // ---- every reachable state ---------------------------------------------------------------

  lemma {:induction false} KeptConcat(a: seq<Frame>, b: seq<Frame>)
    ensures Kept(a + b) == Kept(a) + Kept(b)
  {
    if b == [] {
      assert a + b == a;
    } else {
      var n := |b| - 1;
      KeptConcat(a, b[..n]);
      assert (a + b)[..|a + b| - 1] == a + b[..n];
    }
  }

  /** Whatever the interleaving, the frames passed on, followed by the ones still waiting in the ring, are the
      received frames of the right size, in order of arrival, each once. */
  lemma ExactlyOnceInOrder(acts: seq<Action>)
    ensures var s := Run(acts);
            && Taken(s) <= |s.received|
            && s.delivered + Kept(s.received[Taken(s)..]) == Kept(s.received)
            && forall i :: Taken(s) <= i < |s.received| ==> s.ring[i % 16].done && Holds(s, i)
  {
    RunInv(acts);
    var s := Run(acts);
    hide Run;
    assert s.received == s.received[..Taken(s)] + s.received[Taken(s)..];
    KeptConcat(s.received[..Taken(s)], s.received[Taken(s)..]);
    forall i | Taken(s) <= i < |s.received| ensures s.ring[i % RING].done && Holds(s, i) {
      assert s.ring[i % RING].done <==> Waiting(s, i);
    }
  }

  /** How far `i` is ahead of `from`, going round the ring. */
  function Ahead(i: Index, from: Index): Index {
    (i + RING - from) % RING
  }

  lemma AheadOf(n: nat, k: nat)
    requires n <= k < n + RING
    ensures Ahead(k % RING, n % RING) == k - n
  {
  }

  lemma UseOf(n: nat, j: Index) returns (k: nat)
    ensures n <= k < n + RING && k % RING == j
  {
    k := n + Ahead(j, n % RING);
  }

  /** Between two turns of the drain loop RDT is one behind rx_idx, and DD is set exactly from rx_idx up to
      RDH. */
  lemma RingPositions(acts: seq<Action>, j: Index)
    requires Run(acts).pc.Head?
    ensures var s := Run(acts);
            && s.rdt == (s.rxIdx + 15) % 16
            && (s.ring[j].done <==> Ahead(j, s.rxIdx) < Ahead(s.rdh, s.rxIdx))
  {
    RunInv(acts);
    var s := Run(acts);
    hide Run;
    var k := UseOf(s.given, j);
    AheadOf(s.given, k);
    AheadOf(s.given, |s.received|);
    hide Ahead;
    assert s.ring[k % RING].done <==> Waiting(s, k);
    NextMod(s.given);
    OneBehind(s.given);
  }

  lemma OneBehind(n: nat)
    ensures (n + RING - 1) % RING == (n % RING + RING - 1) % RING
  {
  }

  // ---- the driver --------------------------------------------------------------------------

  /** The five accesses of one turn of the drain loop. */
  function Turn(s: State): State
    requires |s.ring| == RING
  {
    DriverStep(DriverStep(DriverStep(DriverStep(DriverStep(s)))))
  }

  lemma LookAtHead(s: State)
    requires Inv(s) && s.pc.Head?
    ensures |s.ring| == RING && (s.ring[s.rxIdx].done <==> s.given < |s.received|)
  {
    assert s.ring[s.given % RING].done <==> Waiting(s, s.given);
  }

  lemma TurnIs(s: State)
    requires Inv(s) && s.pc.Head? && s.ring[s.rxIdx].done
    ensures var d := s.ring[s.rxIdx];
            && |d.buf[..if GoodSize(d.length) then d.length else 0]| <= BUF_SIZE
            && Turn(s) == s.(ring := s.ring[s.rxIdx := d.(done := false)], rdt := s.rxIdx,
                             rxIdx := (s.rxIdx + 1) % RING, given := s.given + 1,
                             delivered := if GoodSize(d.length) then s.delivered + [d.buf[..d.length]] else s.delivered)
  {
    hide Holds, Waiting, Kept, Taken, DataWritten;
    var d := s.ring[s.rxIdx];
    var s1 := DriverStep(s);
    assert s1 == s.(pc := Found(d.length));
    var s2 := DriverStep(s1);
    assert s2.ring == s.ring && s2.rxIdx == s.rxIdx && s2.pc == Handed;
    var s3 := DriverStep(s2);
    var s5 := DriverStep(DriverStep(s3));
    assert s5.pc == Head;
    assert s5.delivered == s2.delivered;
  }

  lemma TurnKeeps(s: State)
    requires Inv(s) && s.pc.Head? && s.ring[s.rxIdx].done
    ensures Inv(Turn(s))
  {
    HeadKeeps(s);
    var s1 := DriverStep(s);
    assert s1.pc.Found?;
    hide Inv;
    FoundKeeps(s1);
    var s2 := DriverStep(s1);
    HandedKeeps(s2);
    var s3 := DriverStep(s2);
    ClearedKeeps(s3);
    ReturnedKeeps(DriverStep(s3));
  }

  class Nic {
    const ring: array<Desc>
    var rdh: Index
    var rdt: Index
    var rxIdx: Index
    /** The frames net_rx_frame was called with. */
    var delivered: seq<Frame>
    ghost var received: seq<Frame>
    ghost var given: nat

    ghost function Abs(pc: Pc): State
      reads this, ring
    {
      State(ring[..], rdh, rdt, rxIdx, pc, None, received, delivered, given)
    }

    ghost predicate Valid()
      reads this, ring
    {
      Inv(Abs(Head))
    }

    /** The receive ring set-up of e1000_init. */
    constructor ()
      ensures Valid() && fresh(ring) && Abs(Head) == Initial()
    {
      ring := new Desc[RING](_ => Desc(false, 0, Zeros(BUF_SIZE)));
      rdh, rdt, rxIdx := 0, RING - 1, 0;
      delivered, received, given := [], [], 0;
      new;
      InitialInv();
    }

    /** The device receives a frame, or misses it when the ring is full. */
    method Receive(f: Frame) returns (ok: bool)
      requires Valid()
      modifies this, ring
      ensures Valid()
      ensures Abs(Head) == if ok then Step(Step(old(Abs(Head)), WriteData(f)), WriteBack) else old(Abs(Head))
      ensures ok <==> old(|received|) < old(given) + 15
    {
      FullIff(Abs(Head));
      WriteDataKeeps(Abs(Head), f);
      if rdh == rdt { return false; }
      ghost var s := Step(Abs(Head), WriteData(f));
      WriteBackKeeps(s);
      var d := ring[rdh];
      ring[rdh] := Desc(true, |f|, f + d.buf[|f|..]);
      rdh := (rdh + 1) % RING;
      received := received + [f];
      ok := true;
      assert Abs(Head) == Step(s, WriteBack);
    }

    /** One turn of the drain loop: the driver's five accesses, or nothing when DD is clear. */
    method Poll() returns (more: bool)
      requires Valid()
      modifies this, ring
      ensures Valid() && received == old(received) && old(delivered) <= delivered
      ensures more <==> old(given) < |received|
      ensures given == old(given) + if more then 1 else 0
      ensures Abs(Head) == if more then Turn(old(Abs(Head))) else old(Abs(Head))
    {
      hide Inv, Turn, DriverStep, Step, Kept;
      ghost var s := Abs(Head);
      LookAtHead(s);
      var d := ring[rxIdx];
      if !d.done { return false; }
      TurnIs(s);
      TurnKeeps(s);
      if GoodSize(d.length) { delivered := delivered + [d.buf[..d.length]]; }
      ring[rxIdx] := d.(done := false);
      rdt := rxIdx;
      given := given + 1;
      rxIdx := (rxIdx + 1) % RING;
      more := true;
      assert Abs(Head) == Turn(s);
    }

    /** The drain loop of e1000_irq, with the device receiving `arrivals[k]` before the k-th look at the ring:
        when it ends, every frame received so far has been handled. */
    method Drain(arrivals: seq<seq<Frame>>)
      requires Valid()
      modifies this, ring
      ensures Valid() && given == |received| && delivered == Kept(received)
      ensures old(received) <= received && old(delivered) <= delivered
    {
      var k := 0;
      var more := true;
      while more
        invariant 0 <= k && Valid() && (!more ==> given == |received|)
        invariant old(received) <= received && old(delivered) <= delivered
        decreases if k < |arrivals| then |arrivals| - k else 0, |received| - given + if more then 1 else 0
      {
        if k < |arrivals| { ReceiveAll(arrivals[k]); }
        k := k + 1;
        more := Poll();
      }
      assert received[..given] == received;
    }

    /** The device receives some frames, those that fit, in order. */
    method ReceiveAll(fs: seq<Frame>)
      requires Valid()
      modifies this, ring
      ensures Valid() && old(received) <= received && delivered == old(delivered)
    {
      for i := 0 to |fs|
        invariant Valid() && old(received) <= received && delivered == old(delivered)
      {
        var ok := Receive(fs[i]);
      }
    }
  }
}
