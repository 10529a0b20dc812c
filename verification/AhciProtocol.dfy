/** The command slots of one AHCI port as a three-party protocol (kernel/ahci.c): tasks submit and wait,
    the interrupt handler records completions, and the host bus adapter (HBA) executes commands. Every
    register access and every update of a mask is a step of its own, so the HBA can act between any two. */
module AhciProtocol {
  import opened Bytes

  const SLOTS := 32

  type Slot = x: int | 0 <= x < SLOTS

  type TaskId = nat

  datatype Command = Command(opcode: byte, lba: nat, count: uint16, buf: uint32, bytes: nat, write: bool)

  const READ_FPDMA_QUEUED: byte := 0x60
  const WRITE_FPDMA_QUEUED: byte := 0x61

  predicate IsNcq(opcode: byte) {
    opcode == READ_FPDMA_QUEUED || opcode == WRITE_FPDMA_QUEUED
  }

  /** The `id`-th call of port_dma_xfer. The number exists for the statements below, not in the kernel. */
  datatype Request = Request(id: nat, cmd: Command)

  /** Where a task is inside port_dma_xfer and wait_slot. */
  datatype Stage =
    | Allocated             // the slot is taken, its command table still holds the previous command
    | Built                 // header, FIS and PRD are written
    | HalfIssued            // the first of the two issue registers of a queued command is written
    | Check                 // about to test completed_mask
    | Halted                // inside sti; hlt; popfl
    | PeekCi                // about to read CI
    | PeekSact(ciBit: bool) // about to read SACT
    | Tail                  // the wait is over: about to clear the completion bit
    | Freeing               // about to free the slot and return

  datatype Pc = Idle | At(stage: Stage, slot: Slot, id: nat)

  /** Where the interrupt handler is. */
  datatype Irq = NoIrq | ReadCi | ReadSact(ci: set<Slot>) | Commit(ci: set<Slot>, sact: set<Slot>)

  /** Bit masks are sets of slots. `log` lists the commands the HBA finished, oldest first, and
      `results` what port_dma_xfer returned. */
  datatype State = State(
    free: set<Slot>, completed: set<Slot>, ci: set<Slot>, sact: set<Slot>,
    table: map<Slot, Request>, active: map<Slot, Request>,
    tasks: map<TaskId, Pc>, running: Option<TaskId>, irq: Irq,
    requests: seq<Command>, log: seq<Request>, results: map<nat, int>)

  /** What the driver relies on: `sactFirst`, a queued command's SACT bit is written before its CI bit;
      `gated`, interrupts are off outside the hlt window. The kernel has both. */
  datatype Rules = Rules(sactFirst: bool, gated: bool)

  const KERNEL := Rules(true, true)

  datatype Action =
    | Submit(t: TaskId, cmd: Command)
    | Advance(t: TaskId)
    | Interrupt
    | Fetch(slot: Slot)
    | Finish(slot: Slot)

  function SlotsFrom(i: nat): (r: set<Slot>)
    requires i <= SLOTS
    ensures forall x: Slot :: x in r <==> i <= x
    decreases SLOTS - i
  {
    if i == SLOTS then {} else {i} + SlotsFrom(i + 1)
  }

  function AllSlots(): (r: set<Slot>)
    ensures forall x: Slot :: x in r
  {
    SlotsFrom(0)
  }

  function Initial(): State {
    State(AllSlots(), {}, {}, {}, map[], map[], map[], None, NoIrq, [], [], map[])
  }

  function PcOf(s: State, t: TaskId): Pc {
    if t in s.tasks then s.tasks[t] else Idle
  }

  /** The lowest free slot from `i` on. */
  function FirstFree(free: set<Slot>, i: nat): (r: Option<Slot>)
    requires i <= SLOTS
    ensures r.Some? ==> i <= r.value && r.value in free && forall j: Slot :: i <= j < r.value ==> j !in free
    ensures r.None? ==> forall j: Slot :: i <= j ==> j !in free
    decreases SLOTS - i
  {
    if i == SLOTS then None else if i in free then Some(i) else FirstFree(free, i + 1)
  }

  // ---- steps -------------------------------------------------------------------------------

  function Goto(s: State, t: TaskId, pc: Pc): State {
    s.(tasks := s.tasks[t := pc], running := if pc.Idle? || pc.stage.Halted? then None else Some(t))
  }

  /** port_dma_xfer up to alloc_slot: a full port fails at once. */
  function SubmitStep(s: State, t: TaskId, cmd: Command): State {
    var id := |s.requests|;
    var s1 := s.(requests := s.requests + [cmd]);
    var slot := FirstFree(s.free, 0);
    if slot.None? then s1.(results := s.results[id := -1])
    else Goto(s1.(free := s.free - {slot.value}), t, At(Allocated, slot.value, id))
  }

  /** The next register or memory access of a task at `pc`. */
  function Access(r: Rules, s: State, pc: Pc): State
    requires pc.At? && pc.id < |s.requests|
  {
    var x, cmd := pc.slot, s.requests[pc.id];
    match pc.stage
    case Allocated => s.(table := s.table[x := Request(pc.id, cmd)])
    case Built => if IsNcq(cmd.opcode) && r.sactFirst then s.(sact := s.sact + {x}) else s.(ci := s.ci + {x})
    case HalfIssued => if r.sactFirst then s.(ci := s.ci + {x}) else s.(sact := s.sact + {x})
    case PeekSact(ciBit) => if ciBit || x in s.sact then s else s.(completed := s.completed + {x})
    case Tail => s.(completed := s.completed - {x})
    case Freeing => s.(free := s.free + {x}, results := s.results[pc.id := 0])
    case _ => s
  }

  /** Where the task goes from there. */
  function Next(s: State, pc: Pc): Pc
    requires pc.At? && pc.id < |s.requests|
  {
    match pc.stage
    case Allocated => pc.(stage := Built)
    case Built => pc.(stage := if IsNcq(s.requests[pc.id].opcode) then HalfIssued else Check)
    case HalfIssued => pc.(stage := Check)
    case Check => pc.(stage := if pc.slot in s.completed then Tail else Halted)
    case Halted => pc.(stage := PeekCi)
    case PeekCi => pc.(stage := PeekSact(pc.slot in s.ci))
    case PeekSact(ciBit) => pc.(stage := if ciBit || pc.slot in s.sact then Check else Tail)
    case Tail => pc.(stage := Freeing)
    case Freeing => Idle
  }

  function TaskStep(r: Rules, s: State, t: TaskId, pc: Pc): State
    requires pc.At? && pc.id < |s.requests|
  {
    Goto(Access(r, s, pc), t, Next(s, pc))
  }

  /** ahci_irq for this port, one register access at a time. */
  function IrqStep(s: State): State {
    match s.irq
    case NoIrq => s.(irq := ReadCi)
    case ReadCi => s.(irq := ReadSact(s.ci))
    case ReadSact(ci) => s.(irq := Commit(ci, s.sact))
    case Commit(ci, sact) => s.(irq := NoIrq, completed := s.completed + (AllSlots() - s.free - ci - sact))
  }

  /** The HBA takes up an issued command; a queued one leaves CI at that moment. */
  function FetchStep(s: State, x: Slot): State
    requires x in s.table
  {
    s.(active := s.active[x := s.table[x]], ci := if IsNcq(s.table[x].cmd.opcode) then s.ci - {x} else s.ci)
  }

  /** The HBA has moved the data: a queued command leaves SACT, any other one leaves CI. */
  function FinishStep(s: State, x: Slot): State
    requires x in s.active
  {
    var q := s.active[x];
    var s1 := s.(active := s.active - {x}, log := s.log + [q]);
    if IsNcq(q.cmd.opcode) then s1.(sact := s.sact - {x}) else s1.(ci := s.ci - {x})
  }

  /** A task moves on its own turn; one that is halted or idle, when nothing else runs. */
  predicate MayRun(s: State, t: TaskId) {
    s.irq.NoIrq? && (s.running == Some(t) || (s.running.None? && (PcOf(s, t).Idle? || PcOf(s, t).stage.Halted?)))
  }

  predicate Enabled(r: Rules, s: State, a: Action) {
    match a
    case Submit(t, _) => MayRun(s, t) && PcOf(s, t).Idle?
    case Advance(t) => MayRun(s, t) && PcOf(s, t).At? && PcOf(s, t).id < |s.requests|
    case Interrupt => !s.irq.NoIrq? || !r.gated || s.running.None?
    case Fetch(x) => x in s.ci && x in s.table && x !in s.active
    case Finish(x) => x in s.active
  }

  /** An action that is not possible leaves the state alone, so every list of actions is a run. */
  function Step(r: Rules, s: State, a: Action): State {
    if !Enabled(r, s, a) then s else
      match a
      case Submit(t, cmd) => SubmitStep(s, t, cmd)
      case Advance(t) => TaskStep(r, s, t, s.tasks[t])
      case Interrupt => IrqStep(s)
      case Fetch(x) => FetchStep(s, x)
      case Finish(x) => FinishStep(s, x)
  }

  function Run(r: Rules, acts: seq<Action>): State {
    if acts == [] then Initial() else Step(r, Run(r, acts[..|acts| - 1]), acts[|acts| - 1])
  }

  // ---- the invariant -----------------------------------------------------------------------

  /** How often the HBA finished request `id`. */
  function Count(log: seq<Request>, id: nat): nat {
    if log == [] then 0
    else Count(log[..|log| - 1], id) + if log[|log| - 1].id == id then 1 else 0
  }

  ghost predicate Quiet(s: State, x: Slot) {
    x !in s.ci && x !in s.sact && x !in s.active && x !in s.completed
  }

  /** The slot's command table holds request `id`. */
  ghost predicate Loaded(s: State, x: Slot, id: nat)
    requires id < |s.requests|
  {
    x in s.table && s.table[x] == Request(id, s.requests[id])
  }

  /** Issued and not finished: the slot's bit is set in CI or SACT until the very end. */
  ghost predicate Pending(s: State, x: Slot, id: nat)
    requires id < |s.requests|
  {
    && Loaded(s, x, id)
    && Count(s.log, id) == 0
    && x !in s.completed
    && (if IsNcq(s.requests[id].opcode) then x in s.sact && (x in s.ci <==> x !in s.active)
        else x in s.ci && x !in s.sact)
    && (x in s.active ==> s.active[x] == s.table[x])
  }

  ghost predicate Finished(s: State, x: Slot, id: nat) {
    Count(s.log, id) == 1 && x !in s.ci && x !in s.sact && x !in s.active
  }

  /** What is true of a slot while its holder is at `pc`. */
  ghost predicate Holds(s: State, pc: Pc)
    requires pc.At?
  {
    var x, id := pc.slot, pc.id;
    && x !in s.free && id < |s.requests| && id !in s.results
    && match pc.stage
       case Allocated => Quiet(s, x) && Count(s.log, id) == 0
       case Built => Quiet(s, x) && Count(s.log, id) == 0 && Loaded(s, x, id)
       case HalfIssued =>
         && Loaded(s, x, id) && IsNcq(s.requests[id].opcode) && Count(s.log, id) == 0
         && x in s.sact && x !in s.ci && x !in s.active && x !in s.completed
       case PeekSact(ciBit) => (Pending(s, x, id) && (x in s.ci ==> ciBit)) || Finished(s, x, id)
       case Tail => Finished(s, x, id) && x in s.completed
       case Freeing => Finished(s, x, id) && x !in s.completed
       case _ => Pending(s, x, id) || Finished(s, x, id)
  }

  ghost predicate TasksOk(s: State) {
    forall t :: t in s.tasks && s.tasks[t].At? ==> Holds(s, s.tasks[t])
  }

  ghost predicate Clash(p: Pc, q: Pc) {
    p.At? && q.At? && (p.slot == q.slot || p.id == q.id)
  }

  /** No two tasks hold one slot or work on one request. */
  ghost predicate Exclusive(s: State) {
    forall t, u :: t in s.tasks && u in s.tasks && t != u ==> !Clash(s.tasks[t], s.tasks[u])
  }

  ghost predicate Held(s: State, x: Slot) {
    exists t :: t in s.tasks && s.tasks[t].At? && s.tasks[t].slot == x
  }

  /** Every slot is free and quiet, or held. */
  ghost predicate SlotsOk(s: State) {
    forall x: Slot :: if x in s.free then Quiet(s, x) else Held(s, x)
  }

  /** At most the running task is outside the hlt window. */
  ghost predicate TurnsOk(s: State) {
    forall t :: t in s.tasks && s.running != Some(t) ==> s.tasks[t].Idle? || s.tasks[t].stage.Halted?
  }

  /** What the handler has read so far is still good enough to act on. */
  ghost predicate IrqOk(s: State) {
    && (!s.irq.NoIrq? ==> s.running.None?)
    && match s.irq
       case NoIrq => true
       case ReadCi => true
       case ReadSact(ci) => s.ci <= ci
       case Commit(ci, sact) => forall x: Slot :: x in s.ci || x in s.sact ==> x in ci || x in sact
  }

  ghost predicate LogOk(s: State) {
    && (forall q :: q in s.log ==> q.id < |s.requests| && q.cmd == s.requests[q.id])
    && (forall id :: Count(s.log, id) <= 1)
    && (forall id :: id in s.results ==> id < |s.requests| && Count(s.log, id) == (if s.results[id] == 0 then 1 else 0))
  }

  ghost predicate Inv(s: State) {
    TasksOk(s) && Exclusive(s) && SlotsOk(s) && TurnsOk(s) && IrqOk(s) && LogOk(s)
  }
}
