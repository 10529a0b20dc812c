/** Safety of the AHCI slot protocol over every run, and why both of its ordering rules are needed. */
module AhciSafety {
  import opened Bytes
  import opened AhciProtocol

  lemma CountAppend(log: seq<Request>, q: Request, id: nat)
    ensures Count(log + [q], id) == Count(log, id) + if q.id == id then 1 else 0
  {
    assert (log + [q])[..|log|] == log;
  }

  lemma {:induction false} CountAbsent(log: seq<Request>, id: nat)
    requires forall q :: q in log ==> q.id != id
    ensures Count(log, id) == 0
  {
    if log != [] {
      CountAbsent(log[..|log| - 1], id);
    }
  }

  // ---- frames ------------------------------------------------------------------------------

  /** `r` is like `s` as far as a task at `pc` can tell. */
  ghost predicate SameFor(s: State, r: State, pc: Pc)
    requires pc.At?
  {
    var x, id := pc.slot, pc.id;
    && (x in s.free <==> x in r.free)
    && (x in s.completed <==> x in r.completed)
    && (x in s.ci <==> x in r.ci)
    && (x in s.sact <==> x in r.sact)
    && (x in s.table <==> x in r.table) && (x in s.table ==> s.table[x] == r.table[x])
    && (x in s.active <==> x in r.active) && (x in s.active ==> s.active[x] == r.active[x])
    && Count(s.log, id) == Count(r.log, id)
    && (id < |s.requests| ==> id < |r.requests| && s.requests[id] == r.requests[id])
    && (id in s.results <==> id in r.results)
  }

  lemma HoldsFrame(s: State, r: State, pc: Pc)
    requires pc.At? && Holds(s, pc) && SameFor(s, r, pc)
    ensures Holds(r, pc)
  {
  }

  lemma HeldFrame(s: State, r: State, x: Slot, t: TaskId)
    requires Held(s, x)
    requires forall u :: u in s.tasks && u != t ==> u in r.tasks && r.tasks[u] == s.tasks[u]
    requires t in s.tasks && s.tasks[t].At? && s.tasks[t].slot == x ==>
               t in r.tasks && r.tasks[t].At? && r.tasks[t].slot == x
    ensures Held(r, x)
  {
    var u :| u in s.tasks && s.tasks[u].At? && s.tasks[u].slot == x;
    assert u in r.tasks && r.tasks[u].At? && r.tasks[u].slot == x;
  }

  // ---- submit ------------------------------------------------------------------------------

  lemma SubmitSelf(s: State, t: TaskId, cmd: Command)
    requires LogOk(s) && SlotsOk(s)
    ensures var r := SubmitStep(s, t, cmd);
            r.tasks == s.tasks ||
            (r.tasks == s.tasks[t := r.tasks[t]] && r.tasks[t].At? && r.tasks[t].id == |s.requests| &&
             r.tasks[t].slot in s.free && Holds(r, r.tasks[t]))
  {
    CountAbsent(s.log, |s.requests|);
  }

  lemma SubmitOther(s: State, t: TaskId, cmd: Command, pc: Pc)
    requires pc.At? && pc.slot !in s.free && pc.id < |s.requests|
    ensures SameFor(s, SubmitStep(s, t, cmd), pc)
  {
    hide IsNcq;
  }

  lemma SubmitSlot(s: State, t: TaskId, cmd: Command, x: Slot)
    requires SlotsOk(s) && PcOf(s, t).Idle?
    ensures var r := SubmitStep(s, t, cmd); if x in r.free then Quiet(r, x) else Held(r, x)
  {
    var r := SubmitStep(s, t, cmd);
    if x !in s.free {
      HeldFrame(s, r, x, t);
    } else if x !in r.free {
      assert t in r.tasks && r.tasks[t].slot == x;
    }
  }

  lemma SubmitRest(s: State, t: TaskId, cmd: Command)
    requires TurnsOk(s) && IrqOk(s) && LogOk(s) && MayRun(s, t) && PcOf(s, t).Idle?
    ensures var r := SubmitStep(s, t, cmd); TurnsOk(r) && IrqOk(r) && LogOk(r)
  {
    CountAbsent(s.log, |s.requests|);
    hide FirstFree;
  }

  lemma SubmitTasks(s: State, t: TaskId, cmd: Command)
    requires TasksOk(s) && LogOk(s) && SlotsOk(s) && PcOf(s, t).Idle?
    ensures TasksOk(SubmitStep(s, t, cmd))
    ensures forall u :: u in s.tasks && s.tasks[u].At? ==>
                          s.tasks[u].slot !in s.free && s.tasks[u].id < |s.requests|
  {
    hide SubmitStep, PcOf, Count, Pending, Finished, Quiet, LogOk, SlotsOk, Held, IsNcq;
    var r := SubmitStep(s, t, cmd);
    SubmitSelf(s, t, cmd);
    forall u | u in s.tasks && s.tasks[u].At?
      ensures Holds(r, s.tasks[u]) && s.tasks[u].slot !in s.free && s.tasks[u].id < |s.requests|
    {
      assert Holds(s, s.tasks[u]);
      SubmitOther(s, t, cmd, s.tasks[u]);
      HoldsFrame(s, r, s.tasks[u]);
    }
  }

  lemma SubmitExclusive(s: State, t: TaskId, cmd: Command)
    requires TasksOk(s) && Exclusive(s) && LogOk(s) && SlotsOk(s) && PcOf(s, t).Idle?
    ensures Exclusive(SubmitStep(s, t, cmd))
  {
    hide SubmitStep, PcOf, Holds, TasksOk, LogOk, SlotsOk;
    var r := SubmitStep(s, t, cmd);
    SubmitSelf(s, t, cmd);
    SubmitTasks(s, t, cmd);
    forall u, v | u in r.tasks && v in r.tasks && u != v ensures !Clash(r.tasks[u], r.tasks[v]) {
      assert u != t && v != t ==> !Clash(s.tasks[u], s.tasks[v]);
    }
  }

  lemma SubmitKeeps(s: State, t: TaskId, cmd: Command)
    requires Inv(s) && Enabled(KERNEL, s, Submit(t, cmd))
    ensures Inv(SubmitStep(s, t, cmd))
  {
    hide SubmitStep, TasksOk, Exclusive, Quiet, Held, TurnsOk, IrqOk, LogOk;
    SubmitRest(s, t, cmd);
    SubmitTasks(s, t, cmd);
    SubmitExclusive(s, t, cmd);
    forall x: Slot {
      SubmitSlot(s, t, cmd, x);
    }
  }

  // ---- a task's own steps ------------------------------------------------------------------

  lemma AdvanceSelf(s: State, t: TaskId)
    requires TasksOk(s) && t in s.tasks && s.tasks[t].At? && s.tasks[t].id < |s.requests|
    ensures var r := TaskStep(KERNEL, s, t, s.tasks[t]);
            r.tasks[t].At? ==>
              r.tasks[t].slot == s.tasks[t].slot && r.tasks[t].id == s.tasks[t].id && Holds(r, r.tasks[t])
  {
    assert Holds(s, s.tasks[t]);
  }

  lemma AccessSame(k: Rules, s: State, pc: Pc, other: Pc)
    requires pc.At? && pc.id < |s.requests| && other.At? && !Clash(pc, other)
    ensures SameFor(s, Access(k, s, pc), other)
  {
    hide IsNcq, Count, SlotsFrom, AllSlots;
    match pc.stage
    case Allocated =>
    case Built =>
    case HalfIssued =>
    case PeekSact(_) =>
    case Tail =>
    case Freeing =>
    case _ =>
  }

  lemma AdvanceOther(k: Rules, s: State, t: TaskId, u: TaskId)
    requires t in s.tasks && s.tasks[t].At? && s.tasks[t].id < |s.requests|
    requires u in s.tasks && u != t && s.tasks[u].At? && !Clash(s.tasks[t], s.tasks[u])
    ensures SameFor(s, TaskStep(k, s, t, s.tasks[t]), s.tasks[u])
  {
    AccessSame(k, s, s.tasks[t], s.tasks[u]);
    hide IsNcq, Count, Next, Access;
  }

  lemma AdvanceSlot(s: State, t: TaskId, x: Slot)
    requires TasksOk(s) && SlotsOk(s) && t in s.tasks && s.tasks[t].At? && s.tasks[t].id < |s.requests|
    ensures var r := TaskStep(KERNEL, s, t, s.tasks[t]); if x in r.free then Quiet(r, x) else Held(r, x)
  {
    var r := TaskStep(KERNEL, s, t, s.tasks[t]);
    assert Holds(s, s.tasks[t]);
    if x !in r.free {
      HeldFrame(s, r, x, t);
    }
  }

  lemma AdvanceChanges(k: Rules, s: State, t: TaskId)
    requires t in s.tasks && s.tasks[t].At? && s.tasks[t].id < |s.requests|
    ensures var r, pc := TaskStep(k, s, t, s.tasks[t]), s.tasks[t];
            && t in r.tasks && r.tasks == s.tasks[t := r.tasks[t]]
            && (r.tasks[t].At? ==> r.tasks[t].slot == pc.slot && r.tasks[t].id == pc.id)
            && r.running == (if r.tasks[t].Idle? || r.tasks[t].stage.Halted? then None else Some(t))
  {
    hide IsNcq;
  }

  lemma AdvanceResults(k: Rules, s: State, t: TaskId)
    requires t in s.tasks && s.tasks[t].At? && s.tasks[t].id < |s.requests|
    ensures var r, pc := TaskStep(k, s, t, s.tasks[t]), s.tasks[t];
            && r.irq == s.irq && r.log == s.log && r.requests == s.requests
            && r.results == if pc.stage.Freeing? then s.results[pc.id := 0] else s.results
  {
    hide IsNcq, Next, AllSlots, SlotsFrom;
    var pc := s.tasks[t];
    match pc.stage
    case Allocated =>
    case Built =>
    case HalfIssued =>
    case PeekSact(_) =>
    case Tail =>
    case Freeing =>
    case _ =>
  }

  lemma AdvanceTasks(s: State, t: TaskId)
    requires TasksOk(s) && Exclusive(s) && t in s.tasks && s.tasks[t].At? && s.tasks[t].id < |s.requests|
    ensures TasksOk(TaskStep(KERNEL, s, t, s.tasks[t]))
  {
    hide TaskStep, Quiet, Pending, Finished, Count, IsNcq;
    var r := TaskStep(KERNEL, s, t, s.tasks[t]);
    AdvanceChanges(KERNEL, s, t);
    AdvanceSelf(s, t);
    forall u | u in s.tasks && s.tasks[u].At? && u != t ensures Holds(r, s.tasks[u]) {
      assert Holds(s, s.tasks[u]) && !Clash(s.tasks[t], s.tasks[u]);
      AdvanceOther(KERNEL, s, t, u);
      HoldsFrame(s, r, s.tasks[u]);
    }
  }

  lemma AdvanceExclusive(s: State, t: TaskId)
    requires Exclusive(s) && t in s.tasks && s.tasks[t].At? && s.tasks[t].id < |s.requests|
    ensures Exclusive(TaskStep(KERNEL, s, t, s.tasks[t]))
  {
    hide TaskStep;
    var r := TaskStep(KERNEL, s, t, s.tasks[t]);
    AdvanceChanges(KERNEL, s, t);
    forall u, v | u in r.tasks && v in r.tasks && u != v ensures !Clash(r.tasks[u], r.tasks[v]) {
      assert !Clash(s.tasks[u], s.tasks[v]);
    }
  }

  /** A finished request gets its result; nothing else about log and results changes. */
  lemma AdvanceLog(s: State, t: TaskId)
    requires TasksOk(s) && LogOk(s) && t in s.tasks && s.tasks[t].At? && s.tasks[t].id < |s.requests|
    ensures LogOk(TaskStep(KERNEL, s, t, s.tasks[t]))
  {
    hide TaskStep, Quiet, Pending, Count, IsNcq, TasksOk;
    AdvanceResults(KERNEL, s, t);
    HoldsNow(s, t);
  }

  lemma HoldsNow(s: State, t: TaskId)
    requires TasksOk(s) && t in s.tasks && s.tasks[t].At?
    ensures Holds(s, s.tasks[t])
  {
  }

  lemma AdvanceKeeps(s: State, t: TaskId)
    requires Inv(s) && Enabled(KERNEL, s, Advance(t))
    ensures Inv(TaskStep(KERNEL, s, t, s.tasks[t]))
  {
    hide TaskStep, TasksOk, Exclusive, LogOk, Quiet, Held;
    AdvanceChanges(KERNEL, s, t);
    AdvanceResults(KERNEL, s, t);
    AdvanceTasks(s, t);
    AdvanceExclusive(s, t);
    AdvanceLog(s, t);
    forall x: Slot {
      AdvanceSlot(s, t, x);
    }
  }

  // ---- the interrupt handler ---------------------------------------------------------------

  /** Every slot the handler marks belongs to a finished command. */
  lemma MarkedFinished(s: State, x: Slot) returns (t: TaskId)
    requires Inv(s) && s.irq.Commit? && x !in s.free && x !in s.irq.ci && x !in s.irq.sact
    ensures t in s.tasks && s.tasks[t].At? && s.tasks[t].slot == x && Finished(s, x, s.tasks[t].id)
  {
    assert Held(s, x);
    t :| t in s.tasks && s.tasks[t].At? && s.tasks[t].slot == x;
    assert Holds(s, s.tasks[t]) && s.tasks[t].stage.Halted?;
  }

  lemma CommitTasks(s: State)
    requires Inv(s) && s.irq.Commit?
    ensures TasksOk(IrqStep(s))
  {
    hide Count, SlotsOk, Exclusive, LogOk, SlotsFrom;
    var r := IrqStep(s);
    forall t | t in s.tasks && s.tasks[t].At? ensures Holds(r, s.tasks[t]) {
      assert Holds(s, s.tasks[t]) && s.tasks[t].stage.Halted?;
    }
  }

  lemma CommitKeeps(s: State)
    requires Inv(s) && s.irq.Commit?
    ensures Inv(IrqStep(s))
  {
    hide Holds, Pending, TasksOk, Clash, Count, SlotsFrom;
    var r := IrqStep(s);
    CommitTasks(s);
    forall x: Slot ensures if x in r.free then Quiet(r, x) else Held(r, x) {
      assert Held(s, x) ==> Held(r, x);
    }
  }

  lemma ReadingIrq(s: State)
    requires IrqOk(s) && !s.irq.Commit? && Enabled(KERNEL, s, Interrupt)
    ensures IrqOk(IrqStep(s)) && IrqStep(s) == s.(irq := IrqStep(s).irq)
  {
  }

  lemma SameButIrq(s: State, r: State)
    requires Inv(s) && r == s.(irq := r.irq) && IrqOk(r)
    ensures Inv(r)
  {
    hide IrqOk;
    forall t | t in s.tasks && s.tasks[t].At? ensures Holds(r, s.tasks[t]) {
      HoldsFrame(s, r, s.tasks[t]);
    }
    assert LogOk(r);
    hide Holds, LogOk;
    forall x: Slot ensures if x in r.free then Quiet(r, x) else Held(r, x) {
      assert Held(s, x) ==> Held(r, x);
    }
  }

  lemma InterruptKeeps(s: State)
    requires Inv(s) && Enabled(KERNEL, s, Interrupt)
    ensures Inv(IrqStep(s))
  {
    if s.irq.Commit? {
      CommitKeeps(s);
    } else {
      ReadingIrq(s);
      hide TasksOk, Exclusive, SlotsOk, TurnsOk, LogOk, IrqStep;
      SameButIrq(s, IrqStep(s));
    }
  }

  // ---- the HBA -----------------------------------------------------------------------------

  /** A slot whose bit is set in CI, or that the HBA works on, belongs to a task that waits for it. */
  lemma HolderOf(s: State, x: Slot) returns (t: TaskId)
    requires Inv(s) && (x in s.ci || x in s.active)
    ensures t in s.tasks && s.tasks[t].At? && s.tasks[t].slot == x && s.tasks[t].id < |s.requests|
    ensures Pending(s, x, s.tasks[t].id) && Holds(s, s.tasks[t])
  {
    assert Held(s, x);
    t :| t in s.tasks && s.tasks[t].At? && s.tasks[t].slot == x;
    assert Holds(s, s.tasks[t]);
  }

  lemma FetchKeeps(s: State, x: Slot)
    requires Inv(s) && Enabled(KERNEL, s, Fetch(x))
    ensures Inv(FetchStep(s, x))
  {
    var r := FetchStep(s, x);
    var t := HolderOf(s, x);
    forall u | u in s.tasks && s.tasks[u].At? ensures Holds(r, s.tasks[u]) {
      assert Holds(s, s.tasks[u]);
      if u != t {
        assert !Clash(s.tasks[u], s.tasks[t]);
        HoldsFrame(s, r, s.tasks[u]);
      }
    }
    hide Holds, Pending;
    forall y: Slot ensures if y in r.free then Quiet(r, y) else Held(r, y) {
      assert Held(s, y) ==> Held(r, y);
    }
  }

  lemma PendingMeans(s: State, t: TaskId, x: Slot)
    requires x in s.active && t in s.tasks && s.tasks[t].At? && s.tasks[t].slot == x && s.tasks[t].id < |s.requests|
    requires Pending(s, x, s.tasks[t].id) && Holds(s, s.tasks[t])
    ensures var id := s.tasks[t].id;
            s.active[x] == Request(id, s.requests[id]) && Count(s.log, id) == 0 && id !in s.results
  {
    hide Finished, Quiet, Count, IsNcq;
  }

  lemma FinishLog(s: State, x: Slot, id: nat)
    requires LogOk(s) && x in s.active && id < |s.requests| && s.active[x] == Request(id, s.requests[id])
    requires Count(s.log, id) == 0 && id !in s.results
    ensures LogOk(FinishStep(s, x))
  {
    hide Count, IsNcq;
    var r := FinishStep(s, x);
    forall i ensures Count(r.log, i) == Count(s.log, i) + if id == i then 1 else 0 {
      CountAppend(s.log, s.active[x], i);
    }
  }

  lemma FinishTasks(s: State, x: Slot, t: TaskId)
    requires TasksOk(s) && Exclusive(s) && x in s.active && t in s.tasks && s.tasks[t].At? && s.tasks[t].slot == x
    requires s.tasks[t].id < |s.requests| && Pending(s, x, s.tasks[t].id) && Holds(s, s.tasks[t])
    ensures TasksOk(FinishStep(s, x))
  {
    hide IsNcq;
    var r := FinishStep(s, x);
    forall u | u in s.tasks && s.tasks[u].At? ensures Holds(r, s.tasks[u]) {
      assert Holds(s, s.tasks[u]);
      CountAppend(s.log, s.active[x], s.tasks[u].id);
      if u != t {
        assert !Clash(s.tasks[u], s.tasks[t]);
        HoldsFrame(s, r, s.tasks[u]);
      }
    }
  }

  lemma FinishKeeps(s: State, x: Slot)
    requires Inv(s) && Enabled(KERNEL, s, Finish(x))
    ensures Inv(FinishStep(s, x))
  {
    hide TasksOk, LogOk, Clash;
    var r := FinishStep(s, x);
    var t := HolderOf(s, x);
    PendingMeans(s, t, x);
    FinishLog(s, x, s.tasks[t].id);
    FinishTasks(s, x, t);
    hide Holds, Pending;
    forall y: Slot ensures if y in r.free then Quiet(r, y) else Held(r, y) {
      assert Held(s, y) ==> Held(r, y);
    }
  }

  // ---- every reachable state ---------------------------------------------------------------

  lemma StepKeeps(s: State, a: Action)
    requires Inv(s)
    ensures Inv(Step(KERNEL, s, a))
  {
    if Enabled(KERNEL, s, a) {
      hide Inv, Enabled;
      match a
      case Submit(t, cmd) => SubmitKeeps(s, t, cmd);
      case Advance(t) => AdvanceKeeps(s, t);
      case Interrupt => InterruptKeeps(s);
      case Fetch(x) => FetchKeeps(s, x);
      case Finish(x) => FinishKeeps(s, x);
    }
  }

  lemma RunMore(r: Rules, acts: seq<Action>, a: Action)
    ensures Run(r, acts + [a]) == Step(r, Run(r, acts), a)
  {
    assert (acts + [a])[..|acts|] == acts;
  }

  lemma InitialInv()
    ensures Inv(Initial())
  {
  }

  lemma {:induction false} RunKeeps(acts: seq<Action>)
    ensures Inv(Run(KERNEL, acts))
  {
    hide Inv, Step;
    if acts == [] {
      InitialInv();
    } else {
      RunKeeps(acts[..|acts| - 1]);
      StepKeeps(Run(KERNEL, acts[..|acts| - 1]), acts[|acts| - 1]);
    }
  }

  /** The tasks that hold slots hold distinct ones, and exactly those that free_mask does not list. */
  lemma HeldSlots(acts: seq<Action>)
    ensures var s := Run(KERNEL, acts);
            && (forall t, u :: t in s.tasks && u in s.tasks && t != u && s.tasks[t].At? && s.tasks[u].At? ==>
                  s.tasks[t].slot != s.tasks[u].slot)
            && forall x: Slot :: x !in s.free <==> exists t :: t in s.tasks && s.tasks[t].At? && s.tasks[t].slot == x
  {
    RunKeeps(acts);
    var s := Run(KERNEL, acts);
    hide Run;
    forall t, u | t in s.tasks && u in s.tasks && t != u && s.tasks[t].At? && s.tasks[u].At?
      ensures s.tasks[t].slot != s.tasks[u].slot
    {
      assert !Clash(s.tasks[t], s.tasks[u]);
    }
    forall x: Slot ensures x !in s.free <==> exists t :: t in s.tasks && s.tasks[t].At? && s.tasks[t].slot == x {
      if x !in s.free { assert Held(s, x); }
      if t :| t in s.tasks && s.tasks[t].At? && s.tasks[t].slot == x { assert Holds(s, s.tasks[t]); }
    }
  }

  /** A completion bit is only ever set on a held slot whose command the HBA has finished. */
  lemma CompletionBits(acts: seq<Action>, x: Slot)
    requires x in Run(KERNEL, acts).completed
    ensures var s := Run(KERNEL, acts);
            && x !in s.free && x !in s.ci && x !in s.sact && x !in s.active
            && exists t :: t in s.tasks && s.tasks[t].At? && s.tasks[t].slot == x && Count(s.log, s.tasks[t].id) == 1
  {
    RunKeeps(acts);
    var s := Run(KERNEL, acts);
    hide Run;
    assert Held(s, x);
    var t :| t in s.tasks && s.tasks[t].At? && s.tasks[t].slot == x;
    assert Holds(s, s.tasks[t]);
  }

  /** The commands the callers of a run asked for, in the order of their calls. */
  function Submitted(r: Rules, acts: seq<Action>): seq<Command> {
    if acts == [] then []
    else
      var before, a := acts[..|acts| - 1], acts[|acts| - 1];
      Submitted(r, before) + if a.Submit? && Enabled(r, Run(r, before), a) then [a.cmd] else []
  }

  lemma StepRequests(r: Rules, s: State, a: Action)
    ensures Step(r, s, a).requests == s.requests + if a.Submit? && Enabled(r, s, a) then [a.cmd] else []
  {
    hide IsNcq, AllSlots, Next;
    if Enabled(r, s, a) && a.Advance? { AdvanceResults(r, s, a.t); }
  }

  lemma {:induction false} RequestsAreSubmitted(r: Rules, acts: seq<Action>)
    ensures Run(r, acts).requests == Submitted(r, acts)
  {
    if acts != [] {
      RequestsAreSubmitted(r, acts[..|acts| - 1]);
      StepRequests(r, Run(r, acts[..|acts| - 1]), acts[|acts| - 1]);
      hide Step, Enabled;
    }
  }

  /** The HBA finishes no request twice, and a transfer that returned success was finished exactly
      once, as the very command its caller passed in; one that was refused never reached the HBA. */
  lemma SuccessMeansFinished(acts: seq<Action>, id: nat)
    ensures var s, asked := Run(KERNEL, acts), Submitted(KERNEL, acts);
            && Count(s.log, id) <= 1
            && (forall q :: q in s.log ==> q.id < |asked| && q.cmd == asked[q.id])
            && (id in s.results && s.results[id] == 0 ==>
                  Count(s.log, id) == 1 && id < |asked| && Request(id, asked[id]) in s.log)
            && (id in s.results && s.results[id] != 0 ==> Count(s.log, id) == 0)
  {
    RunKeeps(acts);
    RequestsAreSubmitted(KERNEL, acts);
    var s := Run(KERNEL, acts);
    hide Run, Submitted;
    if Count(s.log, id) == 1 {
      var q := FinishedEntry(s.log, id);
      assert q in s.log;
    }
  }

  lemma {:induction false} FinishedEntry(log: seq<Request>, id: nat) returns (q: Request)
    requires Count(log, id) >= 1
    ensures q in log && q.id == id
  {
    var n := |log| - 1;
    if log[n].id == id {
      q := log[n];
    } else {
      q := FinishedEntry(log[..n], id);
    }
  }

  lemma PeeksSee(s: State, t: TaskId)
    requires Inv(s) && t in s.tasks && s.tasks[t].At? && s.tasks[t].stage.PeekCi? && Count(s.log, s.tasks[t].id) == 1
    ensures var r := Step(KERNEL, Step(KERNEL, s, Advance(t)), Advance(t));
            t in r.tasks && r.tasks[t] == s.tasks[t].(stage := Tail) && s.tasks[t].slot in r.completed
  {
    var pc := s.tasks[t];
    assert Finished(s, pc.slot, pc.id) && Enabled(KERNEL, s, Advance(t)) by {
      assert Holds(s, pc);
    }
    hide Inv, Count;
    var s1 := Step(KERNEL, s, Advance(t));
    assert s1 == Goto(s, t, pc.(stage := PeekSact(false)));
  }

  lemma LeavesHalt(s: State, t: TaskId)
    requires Enabled(KERNEL, s, Advance(t)) && s.tasks[t].stage.Halted?
    ensures var r := Step(KERNEL, s, Advance(t));
            t in r.tasks && r.tasks[t] == s.tasks[t].(stage := PeekCi) && r.log == s.log
  {
  }

  /** A finished command is never missed: a task that leaves the hlt window after it, with or without the interrupt
      handler having run, reads CI and SACT and is out of the loop, its completion bit set. */
  lemma FinishedIsSeen(acts: seq<Action>, t: TaskId)
    requires var s := Run(KERNEL, acts); Enabled(KERNEL, s, Advance(t)) && s.tasks[t].stage.Halted?
    requires var s := Run(KERNEL, acts); Count(s.log, s.tasks[t].id) == 1
    ensures var s, r := Run(KERNEL, acts), Run(KERNEL, acts + [Advance(t)] + [Advance(t)] + [Advance(t)]);
            t in r.tasks && r.tasks[t] == s.tasks[t].(stage := Tail) && s.tasks[t].slot in r.completed
  {
    LeavesHalt(Run(KERNEL, acts), t);
    RunMore(KERNEL, acts, Advance(t));
    RunMore(KERNEL, acts + [Advance(t)], Advance(t));
    RunMore(KERNEL, acts + [Advance(t)] + [Advance(t)], Advance(t));
    hide Run, Step, Inv, Count;
    RunKeeps(acts + [Advance(t)]);
    PeeksSee(Run(KERNEL, acts + [Advance(t)]), t);
  }

  // ---- both rules are needed ---------------------------------------------------------------

  function QueuedRead(): Command {
    Command(READ_FPDMA_QUEUED, 0, 1, 0, 512, false)
  }

  /** Task 0 alone, with slot 0 and request 0. */
  function Solo(pc: Pc, irq: Irq, completed: set<Slot>, ci: set<Slot>, sact: set<Slot>,
                table: map<Slot, Request>): State
  {
    State(SlotsFrom(1), completed, ci, sact, table, map[], map[0 := pc],
          if pc.Idle? || pc.stage.Halted? then None else Some(0), irq, [QueuedRead()], [], map[])
  }

  lemma SoloSubmit(r: Rules)
    ensures Step(r, Initial(), Submit(0, QueuedRead())) == Solo(At(Allocated, 0, 0), NoIrq, {}, {}, {}, map[])
  {
    assert FirstFree(AllSlots(), 0) == Some(0);
    assert AllSlots() - {0} == SlotsFrom(1);
  }

  lemma SoloInterrupted()
    ensures var r, pc := Rules(true, false), At(Allocated, 0, 0);
            var s := Solo(pc, NoIrq, {}, {}, {}, map[]);
            Step(r, Step(r, Step(r, Step(r, s, Interrupt), Interrupt), Interrupt), Interrupt)
            == Solo(pc, NoIrq, {0}, {}, {}, map[])
  {
    var r, pc := Rules(true, false), At(Allocated, 0, 0);
    assert Step(r, Solo(pc, NoIrq, {}, {}, {}, map[]), Interrupt) == Solo(pc, ReadCi, {}, {}, {}, map[]);
    assert Step(r, Solo(pc, ReadCi, {}, {}, {}, map[]), Interrupt) == Solo(pc, ReadSact({}), {}, {}, {}, map[]);
    assert Step(r, Solo(pc, ReadSact({}), {}, {}, {}, map[]), Interrupt) == Solo(pc, Commit({}, {}), {}, {}, {}, map[]);
    assert AllSlots() - SlotsFrom(1) - {} - {} == {0};
  }

  lemma SoloIssues()
    ensures var r, t := Rules(true, false), map[0 := Request(0, QueuedRead())];
            var s := Solo(At(Allocated, 0, 0), NoIrq, {0}, {}, {}, map[]);
            Step(r, Step(r, s, Advance(0)), Advance(0)) == Solo(At(HalfIssued, 0, 0), NoIrq, {0}, {}, {0}, t)
  {
    hide SlotsFrom, SubmitStep, IrqStep, FirstFree;
    var r, t := Rules(true, false), map[0 := Request(0, QueuedRead())];
    assert Step(r, Solo(At(Allocated, 0, 0), NoIrq, {0}, {}, {}, map[]), Advance(0)) ==
           Solo(At(Built, 0, 0), NoIrq, {0}, {}, {}, t);
  }

  lemma RunNone(r: Rules)
    ensures Run(r, []) == Initial()
  {
  }

  lemma SoloReturns()
    ensures var r, t := Rules(true, false), map[0 := Request(0, QueuedRead())];
            var s := Solo(At(HalfIssued, 0, 0), NoIrq, {0}, {}, {0}, t);
            var e := Step(r, Step(r, Step(r, Step(r, s, Advance(0)), Advance(0)), Advance(0)), Advance(0));
            e.results == map[0 := 0] && e.log == []
  {
    hide SlotsFrom, SubmitStep, IrqStep, FirstFree;
    var r, t := Rules(true, false), map[0 := Request(0, QueuedRead())];
    assert Step(r, Solo(At(HalfIssued, 0, 0), NoIrq, {0}, {}, {0}, t), Advance(0)) ==
           Solo(At(Check, 0, 0), NoIrq, {0}, {0}, {0}, t);
    assert Step(r, Solo(At(Check, 0, 0), NoIrq, {0}, {0}, {0}, t), Advance(0)) ==
           Solo(At(Tail, 0, 0), NoIrq, {0}, {0}, {0}, t);
    assert Step(r, Solo(At(Tail, 0, 0), NoIrq, {0}, {0}, {0}, t), Advance(0)) ==
           Solo(At(Freeing, 0, 0), NoIrq, {}, {0}, {0}, t);
  }

  /** Without the interrupt gate, the handler can run between alloc_slot and the issue: it marks the slot
      complete, and the transfer returns success although the HBA never took up the command. */
  lemma UngatedReturnsTooEarly()
    ensures exists acts ::
              Run(Rules(true, false), acts).results == map[0 := 0] && Run(Rules(true, false), acts).log == []
  {
    hide *;
    var r := Rules(true, false);
    SoloSubmit(r);
    SoloInterrupted();
    SoloIssues();
    SoloReturns();
    var a0: seq<Action> := [];
    RunNone(r);
    var a1 := a0 + [Submit(0, QueuedRead())];
    RunMore(r, a0, Submit(0, QueuedRead()));
    RunMore(r, a1, Interrupt);
    var a2 := a1 + [Interrupt];
    RunMore(r, a2, Interrupt);
    var a3 := a2 + [Interrupt];
    RunMore(r, a3, Interrupt);
    var a4 := a3 + [Interrupt];
    RunMore(r, a4, Interrupt);
    var a5 := a4 + [Interrupt];
    RunMore(r, a5, Advance(0));
    var a6 := a5 + [Advance(0)];
    RunMore(r, a6, Advance(0));
    var a7 := a6 + [Advance(0)];
    RunMore(r, a7, Advance(0));
    var a8 := a7 + [Advance(0)];
    RunMore(r, a8, Advance(0));
    var a9 := a8 + [Advance(0)];
    RunMore(r, a9, Advance(0));
    var a10 := a9 + [Advance(0)];
    RunMore(r, a10, Advance(0));
  }

  /** Task 0 waits for slot 0, whose SACT bit is set although no command is in it. */
  ghost predicate Stuck(s: State) {
    && 0 in s.sact && 0 !in s.ci && 0 !in s.active && 0 !in s.completed && 0 !in s.free
    && |s.requests| >= 1 && 0 !in s.results
    && (s.irq.Commit? ==> 0 in s.irq.sact)
    && 0 in s.tasks && s.tasks[0].At? && s.tasks[0].slot == 0 && s.tasks[0].id == 0
    && (s.tasks[0].stage.Check? || s.tasks[0].stage.Halted? || s.tasks[0].stage.PeekCi? || s.tasks[0].stage.PeekSact?)
    && forall t :: t in s.tasks && t != 0 && s.tasks[t].At? ==> s.tasks[t].slot != 0 && s.tasks[t].id != 0
  }

  lemma StuckSubmit(s: State, t: TaskId, cmd: Command)
    requires Stuck(s) && PcOf(s, t).Idle?
    ensures Stuck(SubmitStep(s, t, cmd))
  {
  }

  lemma StuckWaiter(r: Rules, s: State)
    requires Stuck(s)
    ensures Stuck(TaskStep(r, s, 0, s.tasks[0]))
  {
    hide IsNcq;
  }

  lemma StuckOther(r: Rules, s: State, t: TaskId)
    requires Stuck(s) && t != 0 && t in s.tasks && s.tasks[t].At? && s.tasks[t].id < |s.requests|
    ensures Stuck(TaskStep(r, s, t, s.tasks[t]))
  {
    AdvanceChanges(r, s, t);
    AdvanceResults(r, s, t);
    AdvanceOther(r, s, t, 0);
    hide TaskStep, Count;
  }

  lemma StuckHba(r: Rules, s: State, a: Action)
    requires Stuck(s) && Enabled(r, s, a) && !a.Submit? && !a.Advance?
    ensures Stuck(Step(r, s, a))
  {
    hide IsNcq, SubmitStep, TaskStep, MayRun, PcOf, SlotsFrom, AllSlots;
  }

  lemma StuckStep(r: Rules, s: State, a: Action)
    requires Stuck(s)
    ensures Stuck(Step(r, s, a))
  {
    if !Enabled(r, s, a) {
      hide Enabled;
    } else if a.Submit? {
      StuckSubmit(s, a.t, a.cmd);
      hide SubmitStep, Stuck;
    } else if a.Advance? {
      if a.t == 0 { StuckWaiter(r, s); } else { StuckOther(r, s, a.t); }
      hide TaskStep, Stuck;
    } else {
      StuckHba(r, s, a);
    }
  }

  lemma {:induction false} StuckForever(r: Rules, acts: seq<Action>, rest: seq<Action>)
    requires Stuck(Run(r, acts))
    ensures Stuck(Run(r, acts + rest))
  {
    if rest == [] {
      assert acts + rest == acts;
    } else {
      var n := |rest| - 1;
      StuckForever(r, acts, rest[..n]);
      assert acts + rest == (acts + rest[..n]) + [rest[n]];
      RunMore(r, acts + rest[..n], rest[n]);
      StuckStep(r, Run(r, acts + rest[..n]), rest[n]);
    }
  }

  lemma SoloStuck()
    ensures var q := Request(0, QueuedRead());
            Stuck(Solo(At(Check, 0, 0), NoIrq, {}, {}, {0}, map[0 := q]).(log := [q]))
  {
  }

  lemma SoloWrongOrder()
    ensures var r := Rules(false, true);
            var s := Solo(At(Allocated, 0, 0), NoIrq, {}, {}, {}, map[]);
            var e := Step(r, Step(r, Step(r, Step(r, s, Advance(0)), Advance(0)), Fetch(0)), Finish(0));
            Stuck(Step(r, e, Advance(0))) && Step(r, e, Advance(0)).log == [Request(0, QueuedRead())]
  {
    hide Stuck, SlotsFrom, SubmitStep, IrqStep, FirstFree;
    SoloStuck();
    var r := Rules(false, true);
    var q := Request(0, QueuedRead());
    var t := map[0 := q];
    assert Step(r, Solo(At(Allocated, 0, 0), NoIrq, {}, {}, {}, map[]), Advance(0)) ==
           Solo(At(Built, 0, 0), NoIrq, {}, {}, {}, t);
    assert Step(r, Solo(At(Built, 0, 0), NoIrq, {}, {}, {}, t), Advance(0)) ==
           Solo(At(HalfIssued, 0, 0), NoIrq, {}, {0}, {}, t);
    var s3 := Solo(At(HalfIssued, 0, 0), NoIrq, {}, {}, {}, t);
    assert Step(r, Solo(At(HalfIssued, 0, 0), NoIrq, {}, {0}, {}, t), Fetch(0)) == s3.(active := t);
    assert Step(r, s3.(active := t), Finish(0)) == s3.(log := [q]);
    assert Step(r, s3.(log := [q]), Advance(0)) == Solo(At(Check, 0, 0), NoIrq, {}, {}, {0}, t).(log := [q]);
  }

  lemma StuckMeans(s: State)
    requires Stuck(s)
    ensures 0 !in s.results
  {
  }

  lemma CountOne(q: Request)
    ensures Count([q], q.id) == 1
  {
    CountAppend([], q, q.id);
    assert [] + [q] == [q];
  }

  /** Were a queued command's CI bit written before its SACT bit, the HBA could finish it in between: the
      late SACT bit is then never cleared, and whatever happens afterwards the transfer never returns. */
  lemma WrongOrderHangs()
    ensures exists acts :: Count(Run(Rules(false, true), acts).log, 0) == 1
                           && forall rest :: 0 !in Run(Rules(false, true), acts + rest).results
  {
    hide Step, Solo, Stuck, Initial, Run, Count, QueuedRead;
    var r := Rules(false, true);
    SoloSubmit(r);
    SoloWrongOrder();
    var a0: seq<Action> := [];
    RunNone(r);
    RunMore(r, a0, Submit(0, QueuedRead()));
    var a1 := a0 + [Submit(0, QueuedRead())];
    RunMore(r, a1, Advance(0));
    var a2 := a1 + [Advance(0)];
    RunMore(r, a2, Advance(0));
    var a3 := a2 + [Advance(0)];
    RunMore(r, a3, Fetch(0));
    var a4 := a3 + [Fetch(0)];
    RunMore(r, a4, Finish(0));
    var a5 := a4 + [Finish(0)];
    RunMore(r, a5, Advance(0));
    var a6 := a5 + [Advance(0)];
    forall rest ensures 0 !in Run(r, a6 + rest).results {
      StuckForever(r, a6, rest);
      StuckMeans(Run(r, a6 + rest));
    }
    CountOne(Request(0, QueuedRead()));
  }
}
