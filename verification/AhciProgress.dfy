/** What each party of the AHCI slot protocol gets done: which registers an issue writes, when a transfer is
    refused, what the interrupt handler marks, and that a marked transfer returns (kernel/ahci.c). */
module AhciProgress {
  import opened Bytes
  import opened AhciProtocol
  import opened AhciSafety

  /** More actions, from any state. */
  function RunFrom(r: Rules, s: State, acts: seq<Action>): State
    decreases |acts|
  {
    if acts == [] then s else RunFrom(r, Step(r, s, acts[0]), acts[1..])
  }

  lemma {:induction false} RunGoesOn(r: Rules, acts: seq<Action>, more: seq<Action>)
    ensures Run(r, acts + more) == RunFrom(r, Run(r, acts), more)
    decreases |more|
  {
    hide Step, Run;
    if more == [] {
      assert acts + more == acts;
    } else {
      RunMore(r, acts, more[0]);
      RunGoesOn(r, acts + [more[0]], more[1..]);
      assert acts + [more[0]] + more[1..] == acts + more;
    }
  }

  // ---- a submission ------------------------------------------------------------------------

  /** A transfer is refused, with -1, exactly when each of the 32 slots is held by a task; any other takes a
      slot that nobody held. */
  lemma RefusedIff(acts: seq<Action>, t: TaskId, cmd: Command)
    requires Enabled(KERNEL, Run(KERNEL, acts), Submit(t, cmd))
    ensures var s, r := Run(KERNEL, acts), Run(KERNEL, acts + [Submit(t, cmd)]);
            && |r.requests| == |s.requests| + 1
            && (r.results == s.results[|s.requests| := -1] <==> forall x: int :: 0 <= x < 32 ==> Held(s, x))
            && (r.results == s.results || r.results == s.results[|s.requests| := -1])
            && (r.results == s.results ==>
                  t in r.tasks && r.tasks[t].At? && r.tasks[t].id == |s.requests| && !Held(s, r.tasks[t].slot))
  {
    var s := Run(KERNEL, acts);
    RunKeeps(acts);
    RunMore(KERNEL, acts, Submit(t, cmd));
    hide Run;
    assert forall x: Slot :: x in s.free <==> !Held(s, x) by { FreeIsNotHeld(s); }
    assert |s.requests| !in s.results;
    hide Inv, Held;
    assert s.results[|s.requests| := -1] != s.results;
  }

  lemma FreeIsNotHeld(s: State)
    requires Inv(s)
    ensures forall x: Slot :: x in s.free <==> !Held(s, x)
  {
    forall x: Slot ensures x in s.free <==> !Held(s, x) {
      if Held(s, x) {
        var t :| t in s.tasks && s.tasks[t].At? && s.tasks[t].slot == x;
        HolderTookIt(s, t);
      }
    }
  }

  lemma HolderTookIt(s: State, t: TaskId)
    requires TasksOk(s) && t in s.tasks && s.tasks[t].At?
    ensures s.tasks[t].slot !in s.free
  {
    assert Holds(s, s.tasks[t]);
  }

  /** The registers written to issue a command: for READ and WRITE FPDMA QUEUED (0x60 and 0x61) first SACT and
      then CI, for every other command CI alone. */
  lemma IssueWrites(s: State, t: TaskId)
    requires Enabled(KERNEL, s, Advance(t)) && s.tasks[t].stage.Built?
    ensures var x, opcode := s.tasks[t].slot, s.requests[s.tasks[t].id].opcode;
            var s1 := Step(KERNEL, s, Advance(t));
            var s2 := Step(KERNEL, s1, Advance(t));
            if opcode == 0x60 || opcode == 0x61
            then s1.sact == s.sact + {x} && s1.ci == s.ci && s2.sact == s1.sact && s2.ci == s.ci + {x}
            else s1.ci == s.ci + {x} && s1.sact == s.sact && s2.ci == s1.ci && s2.sact == s1.sact
  {
    hide AllSlots, SubmitStep, IrqStep, FirstFree;
    var s1 := Step(KERNEL, s, Advance(t));
    assert s1.tasks[t].At? && s1.running == Some(t);
  }

  // ---- completion --------------------------------------------------------------------------

  /** A task that finds its completion bit set is out in three accesses: the bit is cleared, the slot is free
      again, and the transfer returns 0. */
  lemma MarkedReturns(s: State, t: TaskId)
    requires Enabled(KERNEL, s, Advance(t)) && s.tasks[t].stage.Check? && s.tasks[t].slot in s.completed
    ensures var x, r := s.tasks[t].slot, RunFrom(KERNEL, s, [Advance(t), Advance(t), Advance(t)]);
            && r.results == s.results[s.tasks[t].id := 0] && r.tasks == s.tasks[t := Idle] && r.running == None
            && r.free == s.free + {x} && r.completed == s.completed - {x} && r.ci == s.ci && r.sact == s.sact
  {
    hide AllSlots, SubmitStep, IrqStep, FirstFree, IsNcq, RunFrom;
    ThreeSteps(s, Advance(t));
    var pc, s1 := s.tasks[t], Step(KERNEL, s, Advance(t));
    assert s1 == Goto(s, t, pc.(stage := Tail));
    var s2 := Step(KERNEL, s1, Advance(t));
    assert s2 == Goto(s1.(completed := s.completed - {pc.slot}), t, pc.(stage := Freeing));
  }

  lemma ThreeSteps(s: State, a: Action)
    ensures RunFrom(KERNEL, s, [a, a, a]) == Step(KERNEL, Step(KERNEL, Step(KERNEL, s, a), a), a)
  {
    assert [a, a, a][1..] == [a, a] && [a, a][1..] == [a];
    hide Step;
    var s1 := Step(KERNEL, s, a);
    var s2 := Step(KERNEL, s1, a);
    assert RunFrom(KERNEL, s2, [a]) == RunFrom(KERNEL, Step(KERNEL, s2, a), []);
    assert RunFrom(KERNEL, s1, [a, a]) == RunFrom(KERNEL, s2, [a]);
  }

  predicate OnlyHba(acts: seq<Action>) {
    forall i :: 0 <= i < |acts| ==> acts[i].Fetch? || acts[i].Finish?
  }

  /** The HBA never sets a bit, and touches neither tasks nor handler. */
  lemma {:induction false} HbaOnlyClears(s: State, acts: seq<Action>)
    requires OnlyHba(acts)
    ensures var r := RunFrom(KERNEL, s, acts);
            && r.ci <= s.ci && r.sact <= s.sact && r.free == s.free && r.irq == s.irq && r.running == s.running
            && r.completed == s.completed && r.tasks == s.tasks
    decreases |acts|
  {
    if acts != [] {
      assert acts[0].Fetch? || acts[0].Finish?;
      HbaOnlyClears(Step(KERNEL, s, acts[0]), acts[1..]);
    }
  }

  /** The four accesses of one run of the handler, the HBA acting in between. */
  function Handler(s: State, h1: seq<Action>, h2: seq<Action>, h3: seq<Action>): State {
    var a := RunFrom(KERNEL, Step(KERNEL, s, Interrupt), h1);
    var b := RunFrom(KERNEL, Step(KERNEL, a, Interrupt), h2);
    var c := RunFrom(KERNEL, Step(KERNEL, b, Interrupt), h3);
    Step(KERNEL, c, Interrupt)
  }

  /** One run of the handler marks every held slot whose bits were clear when it began, whatever the HBA does
      meanwhile; all it marks are held slots whose bits are clear when it ends. */
  lemma HandlerMarks(acts: seq<Action>, h1: seq<Action>, h2: seq<Action>, h3: seq<Action>)
    requires Run(KERNEL, acts).irq.NoIrq? && Enabled(KERNEL, Run(KERNEL, acts), Interrupt)
    requires OnlyHba(h1) && OnlyHba(h2) && OnlyHba(h3)
    ensures var s := Run(KERNEL, acts);
            var r := Handler(s, h1, h2, h3);
            && r.irq.NoIrq? && s.completed <= r.completed && r.tasks == s.tasks
            && (forall x: Slot :: Held(s, x) && x !in s.ci && x !in s.sact ==> x in r.completed)
            && (forall x: Slot :: x in r.completed && x !in s.completed ==>
                                    Held(s, x) && x !in r.ci && x !in r.sact)
  {
    RunKeeps(acts);
    var s := Run(KERNEL, acts);
    FreeIsNotHeld(s);
    hide Run, Inv, Held;
    var s1 := Step(KERNEL, s, Interrupt);
    HbaOnlyClears(s1, h1);
    var a := RunFrom(KERNEL, s1, h1);
    var s2 := Step(KERNEL, a, Interrupt);
    HbaOnlyClears(s2, h2);
    var b := RunFrom(KERNEL, s2, h2);
    var s3 := Step(KERNEL, b, Interrupt);
    HbaOnlyClears(s3, h3);
    hide RunFrom;
  }
}
