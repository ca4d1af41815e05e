/** What interrupts and external halts leave behind: the preempted program cannot tell. */
module Transparency {
  import opened Words
  import opened Rv32iPkg
  import opened Runs
  import Clint
  import CsrFile
  import Datapath
  import Dmem
  import Isa
  import MemBus
  import MemoryCorrect
  import Refinement
  import Top
  import Controller

  // ---- timer interrupts ----

  /** An instruction of a well-behaved handler: it completes, and leaves the values of mstatus and mepc
      as they are. It may read them, and write back what they hold. */
  predicate HandlerInstr(a: Isa.Arch, w: Word, e: Isa.Env) {
    var c := Isa.NextCsrs(a, w, e.mtip);
    && !Isa.Halts(a, w, e) && Isa.ExceptionOf(a, w).None?
    && c.mie == a.csrs.mie && c.mpie == a.csrs.mpie && c.mepc == a.csrs.mepc
    && (Isa.Decode(w).Dret? ==> !a.dbg.parked)
  }

  predicate HandlerRun(imem: Top.Imem, a: Isa.Arch, acts: seq<Action>)
    decreases |acts|
  {
    acts == [] ||
    ((acts[0].Commit? ==> HandlerInstr(a, imem(a.pc), acts[0].env)) &&
     HandlerRun(imem, IsaAct(imem, a, acts[0]), acts[1..]))
  }

  /** A handler may read mstatus and mepc: a CSRRS or CSRRC that changes no bit is allowed, unless it
      clears stray low bits of mepc. */
  lemma HandlerMayRead(a: Isa.Arch, w: Word, e: Isa.Env)
    requires !Isa.Halts(a, w, e)
    requires var d := Isa.Decode(w);
             d.CsrAccess? && !d.csrKind.Swap? && Isa.CsrOperand(a, d.source) == 0
    ensures HandlerInstr(a, w, e) <==> !(Isa.Decode(w).csr == CSR_MEPC && a.csrs.mepc % 4 != 0)
  {
    hide Isa.Decode, Isa.CsrOperand, Isa.Halts, Isa.CsrUpdated;
    ZeroOperandCsrWrite(a, w, e.mtip);
    OnlyMepc(a.csrs, Isa.Decode(w).csr, Isa.CsrUpdated(Isa.Decode(w).csrKind,
      CsrFile.Read(a.csrs, Isa.Decode(w).csr, e.mtip), Isa.CsrOperand(a, Isa.Decode(w).source)));
  }

  lemma OnlyMepc(c: CsrFile.Csrs, csr: int, v: Word)
    ensures csr == CSR_MEPC ==> CsrFile.Written(c, csr, v) == c.(mepc := CsrFile.Written(c, csr, v).mepc)
  {}

  lemma HandlerActKeeps(imem: Top.Imem, a: Isa.Arch, act: Action)
    requires !a.csrs.mie && (act.Commit? ==> HandlerInstr(a, imem(a.pc), act.env))
    ensures var a' := IsaAct(imem, a, act);
            a'.csrs.mepc == a.csrs.mepc && !a'.csrs.mie && a'.csrs.mpie == a.csrs.mpie && a'.dbg == a.dbg
    ensures act.Commit? ==> Isa.Executes(a, imem(a.pc), act.env)
  {
    hide Isa.Decode, Isa.ExceptionOf, Isa.WriteOf, Isa.StoreOf, Isa.NextPc, Isa.NextCsrs, Isa.StepMem,
      Isa.SetReg;
  }

  /** With interrupts off, a whole handler run is neither interrupted nor loses the return state. */
  lemma {:induction false} HandlerKeeps(imem: Top.Imem, a: Isa.Arch, acts: seq<Action>)
    requires !a.csrs.mie && HandlerRun(imem, a, acts)
    ensures var a' := IsaRun(imem, a, acts);
            a'.csrs.mepc == a.csrs.mepc && !a'.csrs.mie && a'.csrs.mpie == a.csrs.mpie && a'.dbg == a.dbg
    decreases |acts|
  {
    hide IsaAct, HandlerInstr;
    if acts != [] {
      HandlerActKeeps(imem, a, acts[0]);
      HandlerKeeps(imem, IsaAct(imem, a, acts[0]), acts[1..]);
    }
  }

  lemma FaultsByRegisters(a: Isa.Arch, b: Isa.Arch, w: Word)
    requires a.regs == b.regs
    ensures Isa.ExceptionOf(a, w) == Isa.ExceptionOf(b, w)
    ensures !Isa.Decode(w).Mret? && !Isa.Decode(w).Dret? && a.pc == b.pc ==> Isa.NextPc(a, w) == Isa.NextPc(b, w)
    ensures Isa.StoreOf(a, w) == Isa.StoreOf(b, w)
  {
    hide Isa.Decode, Isa.Holds, Isa.Aligned;
  }

  /** The instruction computes its result from registers, its address and unchanged RAM alone. */
  predicate ResultKept(a: Isa.Arch, b: Isa.Arch, w: Word) {
    match Isa.Decode(w)
    case CsrAccess(_, _, _, _) => false
    case Load(_, _, _, rs1, off) =>
      var addr := Isa.Address(a, rs1, off);
      a.mem.ram == b.mem.ram && !MemBus.IsClint(addr) && !MemBus.IsUart(addr)
    case _ => true
  }

  lemma WritesByRegisters(a: Isa.Arch, b: Isa.Arch, w: Word, mtip: bool, mtip': bool)
    requires a.regs == b.regs && a.pc == b.pc && ResultKept(a, b, w)
    ensures Isa.WriteOf(a, w, mtip) == Isa.WriteOf(b, w, mtip')
  {
    hide Isa.Decode, Isa.ReadRam;
  }

  /** A timer interrupt is transparent: for any handler run that leaves mstatus and mepc alone and
      restores its registers, the mret comes back to the preempted instruction, which retired nothing
      before and now executes once, from the same registers and with interrupts on as before: with the
      same store and successor, and the same result unless it reads a CSR, a device, or RAM that the
      handler changed. */
  lemma InterruptTransparent(imem: Top.Imem, a: Isa.Arch, e: Isa.Env, handler: seq<Action>, e': Isa.Env, e'': Isa.Env)
    requires var w := imem(a.pc);
             !Isa.Halts(a, w, e) && Isa.ExceptionOf(a, w).None? && Isa.Interrupted(a, e)
    requires HandlerRun(imem, Isa.Step(a, imem(a.pc), e), handler)
    requires var h := IsaRun(imem, Isa.Step(a, imem(a.pc), e), handler);
             h.regs == a.regs && Isa.Decode(imem(h.pc)).Mret? && !Isa.Halts(h, imem(h.pc), e')
    ensures var w, entry := imem(a.pc), Isa.Step(a, imem(a.pc), e);
            var h := IsaRun(imem, entry, handler);
            var back := Isa.Step(h, imem(h.pc), e');
            && entry.pc == a.csrs.mtvec && entry.regs == a.regs && Isa.Retires(a, w, e) == []
            && back.pc == a.pc && back.regs == a.regs && back.csrs.mie == a.csrs.mie && back.dbg == a.dbg
            && (!Isa.Halts(back, w, e'') && !Isa.Interrupted(back, e'') ==>
                  Isa.Retires(back, w, e'') == [Isa.RecordOf(back, w, e''.mtip)] &&
                  Isa.StoreOf(back, w) == Isa.StoreOf(a, w) &&
                  (ResultKept(a, back, w) ==> Isa.WriteOf(back, w, e''.mtip) == Isa.WriteOf(a, w, e.mtip)) &&
                  (!Isa.Decode(w).Mret? && !Isa.Decode(w).Dret? ==> Isa.NextPc(back, w) == Isa.NextPc(a, w)))
  {
    hide Isa.Decode, Isa.ExceptionOf, Isa.WriteOf, Isa.StoreOf, Isa.NextPc, Isa.NextCsrs, Isa.StepMem,
      IsaRun, HandlerRun, IsaAct, Isa.RecordOf;
    var w, entry := imem(a.pc), Isa.Step(a, imem(a.pc), e);
    HandlerKeeps(imem, entry, handler);
    var h := IsaRun(imem, entry, handler);
    MretReturns(h, imem(h.pc), e');
    var back := Isa.Step(h, imem(h.pc), e');
    FaultsByRegisters(a, back, w);
    if ResultKept(a, back, w) {
      WritesByRegisters(a, back, w, e.mtip, e''.mtip);
    }
  }

  lemma {:induction false} IsaRunAppend(imem: Top.Imem, a: Isa.Arch, acts: seq<Action>, act: Action)
    ensures IsaRun(imem, a, acts + [act]) == IsaAct(imem, IsaRun(imem, a, acts), act)
    decreases |acts|
  {
    hide IsaAct;
    if acts == [] {
      assert [] + [act] == [act] && [act][1..] == [];
      assert IsaRun(imem, a, [act]) == IsaRun(imem, IsaAct(imem, a, act), []);
    } else {
      assert (acts + [act])[1..] == acts[1..] + [act];
      IsaRunAppend(imem, IsaAct(imem, a, acts[0]), acts[1..], act);
    }
  }

  lemma IsaRunAround(imem: Top.Imem, a: Isa.Arch, first: Action, acts: seq<Action>, last: Action)
    ensures IsaRun(imem, a, [first] + acts + [last]) ==
            IsaAct(imem, IsaRun(imem, IsaAct(imem, a, first), acts), last)
  {
    hide IsaAct;
    var all := [first] + acts;
    assert all[1..] == acts;
    IsaRunAppend(imem, a, all, last);
  }

  /** The same on the pipeline: over a run from an interrupted instruction through a handler and its
      mret, registers, program counter and interrupt enable come back. */
  lemma InterruptOnPipeline(imem: Top.Imem, s: Top.Sys, ps: seq<Top.Pins>,
      e: Isa.Env, handler: seq<Action>, e': Isa.Env)
    requires Refinement.Inv(imem, s.core) && Regular(imem, s, ps)
    requires Actions(imem, s, ps) == [Commit(e)] + handler + [Commit(e')]
    requires var a, w := Refinement.Abs(s), Refinement.WordAt(imem, s);
             !Isa.Halts(a, w, e) && Isa.ExceptionOf(a, w).None? && Isa.Interrupted(a, e)
    requires HandlerRun(imem, Isa.Step(Refinement.Abs(s), Refinement.WordAt(imem, s), e), handler)
    requires var a := Refinement.Abs(s);
             var h := IsaRun(imem, Isa.Step(a, Refinement.WordAt(imem, s), e), handler);
             h.regs == a.regs && Isa.Decode(imem(h.pc)).Mret? && !Isa.Halts(h, imem(h.pc), e')
    ensures var a, back := Refinement.Abs(s), Refinement.Abs(Run(imem, s, ps));
            && back.pc == a.pc && back.regs == a.regs && back.csrs.mie == a.csrs.mie && back.dbg == a.dbg
            && Refinement.WordAt(imem, Run(imem, s, ps)) == Refinement.WordAt(imem, s)
  {
    hide Refinement.Inv, Refinement.Abs, Regular, Actions, Run, IsaRun, Isa.Step, HandlerRun, IsaTrace,
      Observed, Isa.Decode, Isa.ExceptionOf, Isa.Halts, Isa.Interrupted, Isa.RecordOf, Isa.StoreOf,
      Isa.WriteOf, Isa.NextPc, ResultKept, Refinement.AbsPc;
    var a := Refinement.Abs(s);
    AbsPcIs(s);
    AbsPcIs(Run(imem, s, ps));
    RunRefines(imem, s, ps);
    InterruptTransparent(imem, a, e, handler, e', e');
    IsaRunAround(imem, a, Commit(e), handler, Commit(e'));
  }

  lemma AbsPcIs(s: Top.Sys)
    ensures Refinement.Abs(s).pc == Refinement.AbsPc(s.core)
  {
    hide Refinement.AbsRegs, Top.NextMem, Refinement.AbsPc;
  }

  lemma MretReturns(h: Isa.Arch, w: Word, e: Isa.Env)
    requires Isa.Decode(w).Mret? && !Isa.Halts(h, w, e) && !h.csrs.mie
    ensures var b := Isa.Step(h, w, e);
            && b.pc == h.csrs.mepc && b.regs == h.regs && b.dbg == h.dbg
            && b.csrs == h.csrs.(mie := h.csrs.mpie, mpie := true)
  {
    hide Isa.Decode, Isa.StepMem;
  }

  /** On the pipeline, whether the timer fires again at the instruction an mret returns to depends on
      the timer as every store before the mret left it, counted on by the two bubbles: a compare value
      still ahead of the counter then means no spurious interrupt, even from the store right before. */
  lemma MretRefire(imem: Top.Imem, s: Top.Sys, p0: Top.Pins, p1: Top.Pins, p2: Top.Pins)
    requires Refinement.Inv(imem, s.core) && Refinement.Commits(s, p0) && Isa.Decode(Refinement.WordAt(imem, s)).Mret?
    requires NoHalt(imem, Top.Next(imem, s, p0), [p1, p2])
    ensures var s3 := Run(imem, s, [p0, p1, p2]);
            var t := Refinement.Abs(s).mem.timer;
            && s3.core.de.valid && s3.core.de.pc == s.core.csrs.mepc
            && s3.mem.timer == Clint.Timer(Wrap(t.mtime + 2), t.mtimecmp)
            && (Clint.Mtip(s3.mem.timer) <==> Wrap(t.mtime + 2) >= t.mtimecmp)
  {
    hide Refinement.Inv, Top.Next, Refinement.Abs, Refinement.Commits, Refinement.WordAt, Isa.Decode, NoHalt;
    var s1 := Top.Next(imem, s, p0);
    var s2 := Top.Next(imem, s1, p1);
    var s3 := Top.Next(imem, s2, p2);
    RunThree(imem, s, p0, p1, p2);
    MretCommit(imem, s, p0);
    Refinement.InvNext(imem, s, p0);
    QuietPair(imem, s1, p1, p2);
    NextMemIsMem(imem, s2, p2);
    TwoTicks(Refinement.Abs(s).mem.timer.mtime);
    AbsPcOfValid(s3);
  }

  const COMPARE_REGISTER: Word := CLINT_BASE + 4

  predicate StoresCompare(imem: Top.Imem, a: Isa.Arch, act: Action) {
    act.Commit? && Isa.Executes(a, imem(a.pc), act.env) &&
    var st := Isa.StoreOf(a, imem(a.pc)); st.Some? && st.value.addr == COMPARE_REGISTER
  }

  /** No instruction of the schedule stores to the timer's compare register. */
  predicate LeavesCompare(imem: Top.Imem, a: Isa.Arch, acts: seq<Action>)
    decreases |acts|
  {
    acts == [] || (!StoresCompare(imem, a, acts[0]) && LeavesCompare(imem, IsaAct(imem, a, acts[0]), acts[1..]))
  }

  /** The compare register takes the stored word, and changes by nothing else. */
  lemma CompareAct(imem: Top.Imem, a: Isa.Arch, act: Action)
    ensures IsaAct(imem, a, act).mem.timer.mtimecmp ==
            if StoresCompare(imem, a, act) then Isa.StoreOf(a, imem(a.pc)).value.data else a.mem.timer.mtimecmp
  {
    hide Isa.Decode, Isa.ExceptionOf, Isa.WriteOf, Isa.StoreOf, Isa.NextPc, Isa.NextCsrs, Isa.SetReg,
      Isa.StoreBytes;
  }

  lemma {:induction false} CompareKept(imem: Top.Imem, a: Isa.Arch, acts: seq<Action>)
    requires LeavesCompare(imem, a, acts)
    ensures IsaRun(imem, a, acts).mem.timer.mtimecmp == a.mem.timer.mtimecmp
    decreases |acts|
  {
    hide IsaAct, StoresCompare;
    if acts != [] {
      CompareAct(imem, a, acts[0]);
      CompareKept(imem, IsaAct(imem, a, acts[0]), acts[1..]);
    }
  }

  /** Whatever instruction stored the compare value last, however long before the mret, that value is
      still there at the mret. */
  lemma LastCompareHolds(imem: Top.Imem, a: Isa.Arch, store: Action, rest: seq<Action>)
    requires StoresCompare(imem, a, store) && LeavesCompare(imem, IsaAct(imem, a, store), rest)
    ensures IsaRun(imem, a, [store] + rest).mem.timer.mtimecmp == Isa.StoreOf(a, imem(a.pc)).value.data
  {
    hide IsaAct, StoresCompare;
    assert ([store] + rest)[1..] == rest;
    CompareAct(imem, a, store);
    CompareKept(imem, IsaAct(imem, a, store), rest);
  }

  /** No spurious refiring: on the pipeline, a handler stores a compare value anywhere before its mret
      and leaves it alone after. At the instruction that the mret returns to, the compare register
      holds that value, and the timer interrupts there if and only if it is enabled and the counter has
      meanwhile reached the value. So with a later value that instruction halts, faults or executes. */
  lemma StoredCompareDecides(imem: Top.Imem, s: Top.Sys, ps: seq<Top.Pins>, store: Action, rest: seq<Action>,
      p0: Top.Pins, p1: Top.Pins, p2: Top.Pins, p3: Top.Pins)
    requires Refinement.Inv(imem, s.core) && Regular(imem, s, ps) && Actions(imem, s, ps) == [store] + rest
    requires StoresCompare(imem, Refinement.Abs(s), store)
    requires LeavesCompare(imem, IsaAct(imem, Refinement.Abs(s), store), rest)
    requires var t := Run(imem, s, ps);
             && Refinement.Commits(t, p0) && Isa.Decode(Refinement.WordAt(imem, t)).Mret?
             && NoHalt(imem, Top.Next(imem, t, p0), [p1, p2])
    ensures var t := Run(imem, s, ps);
            var back := Run(imem, t, [p0, p1, p2]);
            var compare := Isa.StoreOf(Refinement.Abs(s), Refinement.WordAt(imem, s)).value.data;
            var a, w, e := Refinement.Abs(back), Refinement.WordAt(imem, back), Refinement.EnvOf(back, p3);
            && back.core.de.valid && a.pc == t.core.csrs.mepc
            && back.mem.timer == Clint.Timer(Wrap(Refinement.Abs(t).mem.timer.mtime + 2), compare)
            && (Isa.Interrupted(a, e) <==> a.csrs.mie && a.csrs.mtie && back.mem.timer.mtime >= compare)
            && (back.mem.timer.mtime < compare && !Isa.Halts(a, w, e) && Isa.ExceptionOf(a, w).None? ==>
                  Isa.Executes(a, w, e))
  {
    hide Refinement.Inv, Refinement.Abs, Refinement.Commits, Regular, Actions, Run, IsaRun, IsaAct, IsaTrace,
      Observed, NoHalt, StoresCompare, LeavesCompare, Isa.Decode, Isa.ExceptionOf, Isa.Halts, Isa.StoreOf,
      Refinement.AbsPc, Top.Next;
    var t := Run(imem, s, ps);
    var back := Run(imem, t, [p0, p1, p2]);
    AbsPcIs(s);
    RunRefines(imem, s, ps);
    LastCompareHolds(imem, Refinement.Abs(s), store, rest);
    MretRefire(imem, t, p0, p1, p2);
    AbsPcOfValid(back);
  }

  lemma RunThree(imem: Top.Imem, s: Top.Sys, p0: Top.Pins, p1: Top.Pins, p2: Top.Pins)
    ensures Run(imem, s, [p0, p1, p2]) == Top.Next(imem, Top.Next(imem, Top.Next(imem, s, p0), p1), p2)
  {
    hide Top.Next;
    assert [p0, p1, p2][1..] == [p1, p2] && [p1, p2][1..] == [p2] && [p2][1..] == [];
    var s1 := Top.Next(imem, s, p0);
    var s2 := Top.Next(imem, s1, p1);
    assert Run(imem, s1, [p1, p2]) == Run(imem, s2, [p2]) == Run(imem, Top.Next(imem, s2, p2), []);
  }

  lemma QuietPair(imem: Top.Imem, s1: Top.Sys, p1: Top.Pins, p2: Top.Pins)
    requires Refinement.Inv(imem, s1.core) && Rank(s1.core) == 2 && NoHalt(imem, s1, [p1, p2])
    ensures var s2 := Top.Next(imem, s1, p1);
            var s3 := Top.Next(imem, s2, p2);
            && s3.core.de.valid && Refinement.Abs(s2) == Isa.Idle(Refinement.Abs(s1))
            && Refinement.Abs(s3) == Isa.Idle(Isa.Idle(Refinement.Abs(s1)))
  {
    hide Refinement.Inv, Top.Next, Refinement.Abs, Datapath.EnterDebug, Isa.Idle;
    assert [p1, p2][1..] == [p2];
    BubbleEdge(imem, s1, p1);
    BubbleEdge(imem, Top.Next(imem, s1, p1), p2);
  }

  lemma TwoTicks(t: Word)
    ensures Wrap(Wrap(t + 1) + 1) == Wrap(t + 2)
  {
    WrapAddLeft(t + 1, 1);
  }

  lemma NextMemIsMem(imem: Top.Imem, s: Top.Sys, p: Top.Pins)
    ensures Top.Next(imem, s, p).mem == Refinement.Abs(s).mem
  {
    hide Datapath.Next, Refinement.AbsRegs, MemBus.Next;
  }

  lemma AbsPcOfValid(s: Top.Sys)
    ensures s.core.de.valid ==> Refinement.Abs(s).pc == s.core.de.pc
  {
    hide Refinement.AbsRegs, Top.NextMem;
  }

  lemma BubbleEdge(imem: Top.Imem, s: Top.Sys, p: Top.Pins)
    requires Refinement.Inv(imem, s.core) && !s.core.de.valid && !Datapath.EnterDebug(s.core, p.debugReq)
    ensures var s' := Top.Next(imem, s, p);
            && Refinement.Inv(imem, s'.core) && Rank(s'.core) == Rank(s.core) - 1
            && Refinement.Abs(s') == Isa.Idle(Refinement.Abs(s))
  {
    hide Refinement.Inv, Top.Next, Refinement.Abs, Isa.Idle;
    Refinement.InvNext(imem, s, p);
    Refinement.BubbleStep(imem, s, p);
    RankFalls(imem, s, p);
  }

  lemma MretCommit(imem: Top.Imem, s: Top.Sys, p: Top.Pins)
    requires Refinement.Inv(imem, s.core) && Refinement.Commits(s, p) && Isa.Decode(Refinement.WordAt(imem, s)).Mret?
    ensures var s' := Top.Next(imem, s, p);
            && Rank(s'.core) == 2 && Refinement.Abs(s').pc == s.core.csrs.mepc
            && Refinement.Abs(s').mem == Isa.StepMem(Refinement.Abs(s).mem, Isa.None)
  {
    hide Refinement.AbsRegs, Top.Next, Isa.StepMem, Top.NextMem, Datapath.ExecOf, Datapath.LoadStall,
      Isa.Decode, Isa.NextCsrs, Isa.WriteOf, Isa.SetReg, Controller.ControlOf, Isa.ExceptionOf;
    Refinement.ExecuteStep(imem, s, p);
    RankAfterCommit(imem, s, p);
    MretDecode(Refinement.WordAt(imem, s));
  }

  lemma MretDecode(w: Word)
    ensures Controller.ControlOf(w).isMret == Isa.Decode(w).Mret?
  {}

  // ---- external debug ----

  function Quiets(n: nat): seq<Action> { seq(n, _ => Quiet) }

  /** `n` cycles in which only the timer counts. */
  function Ticks(m: MemBus.Mem, n: nat): MemBus.Mem
    decreases n
  {
    if n == 0 then m else Ticks(Isa.StepMem(m, Isa.None), n - 1)
  }

  lemma {:induction false} TicksTouchOnlyTheTimer(m: MemBus.Mem, n: nat)
    ensures var m' := Ticks(m, n);
            && m'.ram == m.ram && m'.uart.lastByte == m.uart.lastByte
            && m'.timer == m.timer.(mtime := Wrap(m.timer.mtime + n))
    decreases n
  {
    if n == 0 {
      WrapNoop(m.timer.mtime);
    } else {
      TicksTouchOnlyTheTimer(Isa.StepMem(m, Isa.None), n - 1);
      WrapAddLeft(m.timer.mtime + 1, n - 1);
    }
  }

  lemma {:induction false} QuietRun(imem: Top.Imem, a: Isa.Arch, n: nat, rest: seq<Action>)
    ensures IsaRun(imem, a, Quiets(n) + rest) == IsaRun(imem, a.(mem := Ticks(a.mem, n)), rest)
    decreases n
  {
    hide Isa.StepMem, Isa.Step;
    if n == 0 {
      assert Quiets(0) + rest == rest;
    } else {
      var acts := Quiets(n) + rest;
      assert acts[0] == Quiet && acts[1..] == Quiets(n - 1) + rest;
      QuietRun(imem, Isa.Idle(a), n - 1, rest);
    }
  }

  /** Halting on an instruction and resuming through a bare dret leaves registers, CSRs and RAM as if
      the halt had not happened, and the program at the halted instruction; only the timer has
      counted and the debug registers remember the halt. */
  lemma HaltResumeTransparent(imem: Top.Imem, a: Isa.Arch, e: Isa.Env, bubbles: nat, e': Isa.Env)
    requires Isa.Halts(a, imem(a.pc), e) && Isa.Decode(imem(e.haltAddr)).Dret?
    requires !Isa.Interrupted(a, e')
    ensures var after := IsaRun(imem, a, [Commit(e)] + Quiets(bubbles) + [Commit(e')]);
            && after.pc == a.pc && after.regs == a.regs && after.csrs == a.csrs && !after.dbg.parked
            && after.dbg.dpc == a.pc && after.mem == Ticks(a.mem, bubbles + 2)
    ensures Isa.Retires(a, imem(a.pc), e) == []
  {
    hide Isa.Decode, Isa.StepMem, Isa.ExceptionOf, Ticks;
    var acts := [Commit(e)] + Quiets(bubbles) + [Commit(e')];
    assert acts[0] == Commit(e) && acts[1..] == Quiets(bubbles) + [Commit(e')];
    var parked := Isa.Halt(a, imem(a.pc), e);
    Refinement.HaltIsStep(a, imem(a.pc), e);
    QuietRun(imem, parked, bubbles, [Commit(e')]);
    var waiting := parked.(mem := Ticks(parked.mem, bubbles));
    assert [Commit(e')][1..] == [];
    Refinement.DretFaultless(waiting, imem(e.haltAddr));
    DretReturns(waiting, imem(e.haltAddr), e');
    TicksAround(a.mem, bubbles);
  }

  /** The same on the pipeline. */
  lemma HaltResumeOnPipeline(imem: Top.Imem, s: Top.Sys, ps: seq<Top.Pins>, e: Isa.Env, bubbles: nat, e': Isa.Env)
    requires Refinement.Inv(imem, s.core) && Regular(imem, s, ps)
    requires Actions(imem, s, ps) == [Commit(e)] + Quiets(bubbles) + [Commit(e')]
    requires Isa.Halts(Refinement.Abs(s), Refinement.WordAt(imem, s), e) && Isa.Decode(imem(e.haltAddr)).Dret?
    requires !Isa.Interrupted(Refinement.Abs(s), e')
    ensures var a, after := Refinement.Abs(s), Refinement.Abs(Run(imem, s, ps));
            && after.pc == a.pc && after.regs == a.regs && after.csrs == a.csrs && !after.dbg.parked
            && after.dbg.dpc == a.pc && after.mem == Ticks(a.mem, bubbles + 2)
            && Refinement.WordAt(imem, Run(imem, s, ps)) == Refinement.WordAt(imem, s)
  {
    hide Refinement.Inv, Refinement.Abs, Regular, Actions, Run, IsaRun, IsaTrace, Observed, Isa.Decode,
      Isa.Halts, Isa.Interrupted, Ticks, Refinement.AbsPc;
    AbsPcIs(s);
    AbsPcIs(Run(imem, s, ps));
    RunRefines(imem, s, ps);
    HaltResumeTransparent(imem, Refinement.Abs(s), e, bubbles, e');
  }

  lemma DretReturns(a: Isa.Arch, w: Word, e: Isa.Env)
    requires Isa.Decode(w).Dret? && a.dbg.parked && !Isa.Interrupted(a, e)
    ensures Isa.Step(a, w, e) ==
            a.(pc := a.dbg.dpc, dbg := a.dbg.(parked := false), mem := Isa.StepMem(a.mem, Isa.None))
  {
    hide Isa.Decode, Isa.StepMem;
  }

  lemma {:induction false} TicksAround(m: MemBus.Mem, n: nat)
    ensures Isa.StepMem(Ticks(Isa.StepMem(m, Isa.None), n), Isa.None) == Ticks(m, n + 2)
    decreases n
  {
    hide Isa.StepMem;
    if n > 0 {
      TicksAround(Isa.StepMem(m, Isa.None), n - 1);
    } else {
      var m1 := Isa.StepMem(m, Isa.None);
      assert Ticks(m, 2) == Ticks(m1, 1) == Ticks(Isa.StepMem(m1, Isa.None), 0);
    }
  }

  predicate StaysParked(imem: Top.Imem, a: Isa.Arch, acts: seq<Action>)
    decreases |acts|
  {
    a.dbg.parked && (acts == [] || StaysParked(imem, IsaAct(imem, a, acts[0]), acts[1..]))
  }

  lemma ParkedAct(imem: Top.Imem, a: Isa.Arch, act: Action)
    requires a.dbg.parked
    ensures var d := IsaAct(imem, a, act).dbg; d == a.dbg || d == a.dbg.(parked := false)
  {
    hide Isa.Decode, Isa.StepMem, Isa.ExceptionOf, Isa.NextPc, Isa.NextCsrs, Isa.WriteOf, Isa.StoreOf;
  }

  /** Whatever runs while parked, traps and halt requests included, the resume address stays put. */
  lemma {:induction false} DpcKeptWhileParked(imem: Top.Imem, a: Isa.Arch, acts: seq<Action>)
    requires StaysParked(imem, a, acts)
    ensures IsaRun(imem, a, acts).dbg == a.dbg
    decreases |acts|
  {
    hide IsaAct;
    if acts != [] {
      ParkedAct(imem, a, acts[0]);
      DpcKeptWhileParked(imem, IsaAct(imem, a, acts[0]), acts[1..]);
    }
  }

  // ---- three places where the code is not what a manual or comment says ----

  lemma {:induction false} GateIdentity(g: Gate, a: nat, b: nat, n: nat)
    requires a < Pow2(n) && ((g == OrGate && b == 0) || (g == AndGate && b == Pow2(n) - 1))
    ensures Combine(g, a, b, n) == a
    decreases n
  {
    if n == 0 {
    } else {
      assert Pow2(n) == 2 * Pow2(n - 1);
      GateIdentity(g, a / 2, b / 2, n - 1);
    }
  }

  /** CSRRS and CSRRC write the CSR back whatever their operand; the manual has them write nothing when
      the operand is x0 or the immediate zero. With an operand of value zero, these included, the
      write-back changes the CSR file exactly when the CSR is mepc and mepc's low bits are not zero,
      as a trap from a misaligned jump target leaves them. */
  lemma ZeroOperandCsrWrite(a: Isa.Arch, w: Word, mtip: bool)
    requires var d := Isa.Decode(w);
             d.CsrAccess? && !d.csrKind.Swap? && Isa.CsrOperand(a, d.source) == 0
    ensures Isa.NextCsrs(a, w, mtip) == a.csrs <==> !(Isa.Decode(w).csr == CSR_MEPC && a.csrs.mepc % 4 != 0)
  {
    hide Isa.Decode, Bitwise, CsrFile.Read, CsrFile.Written, Isa.CsrOperand;
    var d := Isa.Decode(w);
    BitwiseIdentities(CsrFile.Read(a.csrs, d.csr, mtip));
    WriteBack(a.csrs, d.csr, mtip);
  }

  lemma BitwiseIdentities(v: Word)
    ensures Bitwise(OrGate, v, 0) == v && Bitwise(AndGate, v, Not(0)) == v
  {
    hide Combine, Pow2;
    Pow2Values();
    GateIdentity(OrGate, v, 0, 32);
    GateIdentity(AndGate, v, 0xFFFF_FFFF, 32);
  }

  lemma WriteBack(c: CsrFile.Csrs, csr: int, mtip: bool)
    ensures CsrFile.Written(c, csr, CsrFile.Read(c, csr, mtip)) == c <==> !(csr == CSR_MEPC && c.mepc % 4 != 0)
  {}

  /** A store is kept from the RAM by the two device windows and by nothing else: an address beyond
      the RAM is not dropped. Of any width, the store lands at its address modulo the RAM size, where
      a load of that width then finds it. */
  lemma OutOfRangeStoreWraps(m: MemBus.Mem, a: Word, wd: Word, funct3: int)
    requires 0 <= funct3 < 8 && Isa.Aligned(Isa.StoreWidth(funct3), a)
    ensures var m', w := MemBus.Next(m, true, a, wd, funct3), Isa.StoreWidth(funct3);
            if MemBus.IsClint(a) || MemBus.IsUart(a) then m'.ram == m.ram
            else
              var at := Isa.Start(w, a) % |m.ram|;
              && m'.ram == Isa.StoreBytes(m.ram, at, wd, Isa.Size(w))
              && Isa.LoadBytes(m'.ram, at, Isa.Size(w)) == wd % Pow2(8 * Isa.Size(w))
  {
    hide MemBus.Next, Isa.Aligned, Isa.StoreBytes, Isa.LoadBytes, Isa.StoreWidth, Pow2;
    var w := Isa.StoreWidth(funct3);
    MemoryCorrect.StoreCorrect(m, a, wd, funct3);
    var start, n := Isa.Start(w, a), Isa.Size(w);
    StoreModulo(m.ram, start, wd, n);
    MemoryCorrect.LoadAfterStore(m.ram, start % |m.ram|, wd, n);
  }

  lemma {:induction false} StoreModulo(m: Dmem.Ram, a: nat, v: nat, n: nat)
    ensures Isa.StoreBytes(m, a, v, n) == Isa.StoreBytes(m, a % |m|, v, n)
    decreases n
  {
    if n > 0 {
      var i := a % |m|;
      var m1 := m[i := v % 256];
      SmallRemainder(a, |m|);
      assert Isa.StoreBytes(m, a, v, n) == Isa.StoreBytes(m1, a + 1, v / 256, n - 1);
      assert Isa.StoreBytes(m, i, v, n) == Isa.StoreBytes(m1, i + 1, v / 256, n - 1);
      StoreModulo(m1, a + 1, v / 256, n - 1);
      StoreModulo(m1, i + 1, v / 256, n - 1);
    }
  }

  lemma SmallRemainder(a: nat, size: int)
    requires size > 0
    ensures a % size % size == a % size && (a % size + 1) % size == (a + 1) % size
  {
    var q, r := a / size, a % size;
    assert a == size * q + r;
    DivUnique(r, size, 0, r);
    if r + 1 < size {
      DivUnique(a + 1, size, q, r + 1);
      DivUnique(r + 1, size, 0, r + 1);
    } else {
      assert size * (q + 1) == size * q + size;
      DivUnique(a + 1, size, q + 1, 0);
      DivUnique(r + 1, size, 1, 0);
    }
  }
}
