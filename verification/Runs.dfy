/** Whole runs of the pipeline: refinement of the sequential machine, the retirement stream, the
    transmitted bytes, and the timing of commits. */
module Runs {
  import opened Words
  import opened Rv32iPkg
  import opened Controller
  import opened Datapath
  import opened Refinement
  import Clint
  import ExecuteCorrect
  import Isa
  import MemBus
  import RegFile
  import Dmem
  import Top

  // ---- runs ----

  function Run(imem: Top.Imem, s: Top.Sys, ps: seq<Top.Pins>): Top.Sys
    decreases |ps|
  {
    if ps == [] then s else Run(imem, Top.Next(imem, s, ps[0]), ps[1..])
  }

  /** What the sequential machine does on one clock edge. */
  datatype Action = Commit(env: Isa.Env) | Quiet

  function IsaAct(imem: Top.Imem, a: Isa.Arch, act: Action): Isa.Arch {
    match act
    case Commit(env) => Isa.Step(a, imem(a.pc), env)
    case Quiet => Isa.Idle(a)
  }

  function IsaRetires(imem: Top.Imem, a: Isa.Arch, act: Action): seq<Isa.Record> {
    match act
    case Commit(env) => Isa.Retires(a, imem(a.pc), env)
    case Quiet => []
  }

  function IsaRun(imem: Top.Imem, a: Isa.Arch, acts: seq<Action>): Isa.Arch
    decreases |acts|
  {
    if acts == [] then a else IsaRun(imem, IsaAct(imem, a, acts[0]), acts[1..])
  }

  /** The records of the instructions executed along a sequential run, in order. */
  function IsaTrace(imem: Top.Imem, a: Isa.Arch, acts: seq<Action>): seq<Isa.Record>
    decreases |acts|
  {
    if acts == [] then []
    else IsaRetires(imem, a, acts[0]) + IsaTrace(imem, IsaAct(imem, a, acts[0]), acts[1..])
  }

  function ActionOf(s: Top.Sys, p: Top.Pins): Action {
    if s.core.de.valid || EnterDebug(s.core, p.debugReq) then Commit(EnvOf(s, p)) else Quiet
  }

  /** The sequential schedule that a pipeline run follows: one event per valid execute stage, and one
      per accepted halt. */
  function Actions(imem: Top.Imem, s: Top.Sys, ps: seq<Top.Pins>): seq<Action>
    decreases |ps|
  {
    if ps == [] then [] else [ActionOf(s, ps[0])] + Actions(imem, Top.Next(imem, s, ps[0]), ps[1..])
  }

  /** The records seen at the retirement port after each edge of the run. */
  function Observed(imem: Top.Imem, s: Top.Sys, ps: seq<Top.Pins>): seq<Isa.Record>
    decreases |ps|
  {
    if ps == [] then []
    else
      var s' := Top.Next(imem, s, ps[0]);
      RetiringW(s') + Observed(imem, s', ps[1..])
  }

  /** The two debug hypotheses on one edge: an external halt is accepted on a real instruction, or on
      a bubble that carries the next instruction's address, that one not being an ebreak; and no dret
      races an enabled timer interrupt. */
  predicate RegularEdge(imem: Top.Imem, s: Top.Sys, p: Top.Pins) {
    && (EnterDebug(s.core, p.debugReq) && !s.core.de.valid ==>
          s.core.de.pc == AbsPc(s.core) && !Isa.Decode(WordAt(imem, s)).Ebreak?)
    && !ResumeRace(s)
  }

  predicate Regular(imem: Top.Imem, s: Top.Sys, ps: seq<Top.Pins>)
    decreases |ps|
  {
    ps == [] || (RegularEdge(imem, s, ps[0]) && Regular(imem, Top.Next(imem, s, ps[0]), ps[1..]))
  }

  /** One edge is one action of the sequential machine if and only if it meets the hypotheses. */
  lemma EdgeExactly(imem: Top.Imem, s: Top.Sys, p: Top.Pins)
    requires Inv(imem, s.core)
    ensures Abs(Top.Next(imem, s, p)) == IsaAct(imem, Abs(s), ActionOf(s, p)) <==> RegularEdge(imem, s, p)
  {
    hide Top.Next, Inv, Isa.Step, Isa.Idle, Isa.Halt, AbsRegs, Top.NextMem, EnterDebug, Isa.Decode, Isa.Halts;
    RaceIsCommit(s);
    if s.core.de.valid {
      StepRefines(imem, s, p);
    } else if EnterDebug(s.core, p.debugReq) {
      HaltOnBubble(imem, s, p);
      BubbleHalts(imem, s, p);
      HaltIsStep(Abs(s), WordAt(imem, s), EnvOf(s, p));
    } else {
      BubbleStep(imem, s, p);
    }
  }

  lemma RaceIsCommit(s: Top.Sys)
    ensures ResumeRace(s) ==> s.core.de.valid
  {}

  lemma BubbleHalts(imem: Top.Imem, s: Top.Sys, p: Top.Pins)
    requires Inv(imem, s.core) && !s.core.de.valid && EnterDebug(s.core, p.debugReq)
    ensures Isa.Halts(Abs(s), WordAt(imem, s), EnvOf(s, p))
    ensures Isa.Retires(Abs(s), WordAt(imem, s), EnvOf(s, p)) == []
  {
    hide AbsRegs, Top.NextMem, Isa.Decode, Isa.RecordOf, Isa.ExceptionOf, AbsPc;
  }

  lemma EdgeRefines(imem: Top.Imem, s: Top.Sys, p: Top.Pins)
    requires Inv(imem, s.core) && RegularEdge(imem, s, p)
    ensures Inv(imem, Top.Next(imem, s, p).core)
    ensures Abs(Top.Next(imem, s, p)) == IsaAct(imem, Abs(s), ActionOf(s, p))
    ensures RetiringW(Top.Next(imem, s, p)) == RetiringM(s)
    ensures RetiringM(Top.Next(imem, s, p)) == IsaRetires(imem, Abs(s), ActionOf(s, p))
  {
    hide Top.Next, Inv, Isa.Step, Isa.Idle, Isa.Retires, RetiringM, RetiringW, AbsRegs, Top.NextMem,
      EnterDebug, RegularEdge;
    InvNext(imem, s, p);
    RetireStep(imem, s, p);
    EdgeExactly(imem, s, p);
    if !s.core.de.valid && EnterDebug(s.core, p.debugReq) {
      BubbleHalts(imem, s, p);
    }
  }

  /** The pipelined core refines the one-instruction-at-a-time machine over every run that meets the
      two debug hypotheses, and the records it retires are the executed instructions: in order, with
      none lost, none duplicated and no trapped, halted or wrong-path instruction among them. */
  lemma {:induction false} RunRefines(imem: Top.Imem, s: Top.Sys, ps: seq<Top.Pins>)
    requires Inv(imem, s.core) && Regular(imem, s, ps)
    ensures Inv(imem, Run(imem, s, ps).core)
    ensures Abs(Run(imem, s, ps)) == IsaRun(imem, Abs(s), Actions(imem, s, ps))
    ensures RetiringM(s) + IsaTrace(imem, Abs(s), Actions(imem, s, ps)) ==
            Observed(imem, s, ps) + RetiringM(Run(imem, s, ps))
    decreases |ps|
  {
    hide Top.Next, Inv, IsaAct, IsaRetires, RetiringM, RetiringW, Abs, RegularEdge, ActionOf;
    if ps != [] {
      var s' := Top.Next(imem, s, ps[0]);
      EdgeRefines(imem, s, ps[0]);
      RunRefines(imem, s', ps[1..]);
      var acts := Actions(imem, s, ps);
      assert acts[0] == ActionOf(s, ps[0]) && acts[1..] == Actions(imem, s', ps[1..]);
    }
  }

  /** From reset, with any register and RAM contents. */
  lemma ResetRunRefines(imem: Top.Imem, rf: RegFile.Regs, ram: Dmem.Ram, ps: seq<Top.Pins>)
    requires Regular(imem, Top.ResetState(rf, ram), ps)
    ensures var s := Top.ResetState(rf, ram);
            && Abs(Run(imem, s, ps)) == IsaRun(imem, Abs(s), Actions(imem, s, ps))
            && IsaTrace(imem, Abs(s), Actions(imem, s, ps)) == Observed(imem, s, ps) + RetiringM(Run(imem, s, ps))
            && Abs(s).pc == 0 && Abs(s).regs == rf[0 := 0] && RetiringW(s) == [] && Sent(s) == []
            && !s.core.mw.regWrite && !s.core.mw.memWrite && !s.core.em.regWrite && !s.core.em.memWrite
  {
    hide Top.Next, Run, IsaRun, IsaTrace, Observed, Actions;
    var s := Top.ResetState(rf, ram);
    ResetInv(imem, rf);
    RunRefines(imem, s, ps);
    assert RetiringM(s) == [];
    assert RetiringM(s) + IsaTrace(imem, Abs(s), Actions(imem, s, ps)) == IsaTrace(imem, Abs(s), Actions(imem, s, ps));
  }

  // ---- the UART ----

  function BytesOf(rows: seq<Isa.Record>): seq<Byte> {
    if rows == [] then []
    else
      var st := rows[0].store;
      (if st.Some? && st.value.addr == UART_BASE then [st.value.data % 0x100] else []) + BytesOf(rows[1..])
  }

  lemma {:induction false} BytesOfConcat(a: seq<Isa.Record>, b: seq<Isa.Record>)
    ensures BytesOf(a + b) == BytesOf(a) + BytesOf(b)
  {
    if a == [] {
      assert a + b == b;
    } else {
      assert (a + b)[1..] == a[1..] + b;
      BytesOfConcat(a[1..], b);
    }
  }

  /** The byte on the transmit port in this cycle, if any. */
  function Sent(s: Top.Sys): seq<Byte> { if s.mem.uart.txValid then [s.mem.uart.lastByte] else [] }

  /** The byte that the store now in the memory stage is about to send. */
  function Sending(s: Top.Sys): seq<Byte> {
    if s.core.em.memWrite && s.core.em.alu == UART_BASE then [s.core.em.wdata % 0x100] else []
  }

  function Transmitted(imem: Top.Imem, s: Top.Sys, ps: seq<Top.Pins>): seq<Byte>
    decreases |ps|
  {
    if ps == [] then []
    else
      var s' := Top.Next(imem, s, ps[0]);
      Sent(s') + Transmitted(imem, s', ps[1..])
  }

  lemma SentNext(imem: Top.Imem, s: Top.Sys, p: Top.Pins)
    ensures Sent(Top.Next(imem, s, p)) == Sending(s)
  {
    hide Datapath.Next, Dmem.Write, Clint.Next;
    var m := s.core.em;
    assert MemBus.IsUart(m.alu) && m.alu % 16 == 0 <==> m.alu == UART_BASE;
  }

  lemma SendingNext(imem: Top.Imem, s: Top.Sys, p: Top.Pins)
    requires Inv(imem, s.core) && RegularEdge(imem, s, p)
    ensures Sending(Top.Next(imem, s, p)) == BytesOf(IsaRetires(imem, Abs(s), ActionOf(s, p)))
  {
    hide ControlOf, ImmOf, RdField, Rs1Field, Rs2Field, Funct3, SrcA, SrcB, AbsRegs, ExecOf, PcNext, NextFd,
      NextDe, NextMw, Isa.StoreOf, LoadStall, Top.NextMem, Isa.RecordOf, Isa.Executes, JumpOf, Top.ReadData,
      Isa.WriteOf;
    var s' := Top.Next(imem, s, p);
    EdgeRefines(imem, s, p);
    var rows := RetiringM(s');
    assert rows == Row(NextMw(s'.core.em, Top.ReadData(s')));
    RowOfStage(s'.core.em, Top.ReadData(s'));
    assert s'.core.em.memWrite ==> s'.core.em.valid;
    if rows != [] {
      assert rows == [rows[0]] && BytesOf(rows[1..]) == [];
    }
  }

  lemma RowOfStage(m: ExMem, readData: Word)
    ensures var rows := Row(NextMw(m, readData));
            if m.valid then
              && |rows| == 1
              && rows[0].store == if m.memWrite then Isa.Some(Isa.StoreRow(m.alu, m.wdata, m.funct3)) else Isa.None
            else rows == []
  {
    hide ResultW;
  }

  /** Over any run, the transmitted bytes are the low bytes of the executed stores to the UART's
      data register, in order: each such store sends exactly once and nothing else sends. */
  lemma {:induction false} UartStream(imem: Top.Imem, s: Top.Sys, ps: seq<Top.Pins>)
    requires Inv(imem, s.core) && Regular(imem, s, ps)
    ensures Sending(s) + BytesOf(IsaTrace(imem, Abs(s), Actions(imem, s, ps))) ==
            Transmitted(imem, s, ps) + Sending(Run(imem, s, ps))
    decreases |ps|
  {
    hide Top.Next, Inv, IsaAct, IsaRetires, Abs, RegularEdge, ActionOf, Sending, Sent;
    if ps != [] {
      var s' := Top.Next(imem, s, ps[0]);
      EdgeRefines(imem, s, ps[0]);
      SentNext(imem, s, ps[0]);
      SendingNext(imem, s, ps[0]);
      UartStream(imem, s', ps[1..]);
      var acts := Actions(imem, s, ps);
      assert acts[0] == ActionOf(s, ps[0]) && acts[1..] == Actions(imem, s', ps[1..]);
      BytesOfConcat(IsaRetires(imem, Abs(s), acts[0]), IsaTrace(imem, Abs(s'), acts[1..]));
    }
  }

  // ---- timing ----

  /** How many edges until execute holds an instruction, when nothing halts meanwhile. */
  function Rank(c: Core): nat { if c.de.valid then 0 else if c.fd.valid then 1 else 2 }

  /** The bubbles that follow the instruction now in execute: two after a redirect from execute,
      one after a JAL or a load whose successor reads its destination, none otherwise. */
  function Bubbles(s: Top.Sys, p: Top.Pins): nat {
    if Redirected(RedirectsOf(s.core, ExecOf(s.core, Clint.Mtip(s.mem.timer)), p.debugReq)) then 2
    else if JumpOf(s.core.de.instr) || LoadStall(s.core) then 1
    else 0
  }

  lemma RankFalls(imem: Top.Imem, s: Top.Sys, p: Top.Pins)
    requires Inv(imem, s.core) && !s.core.de.valid && !EnterDebug(s.core, p.debugReq)
    ensures Rank(Top.Next(imem, s, p).core) == Rank(s.core) - 1
  {
    hide ControlOf, ImmOf, RdField, Rs1Field, Rs2Field, Funct3, SrcA, SrcB, AluOf, NextMw, ResultW, JumpOf,
      CsrWdata, NextEm;
    NopDecodes();
  }

  lemma RankAfterCommit(imem: Top.Imem, s: Top.Sys, p: Top.Pins)
    requires Inv(imem, s.core) && s.core.de.valid
    ensures Rank(Top.Next(imem, s, p).core) == Bubbles(s, p)
  {
    hide ControlOf, ImmOf, RdField, Rs1Field, Rs2Field, Funct3, ExecOf, NextMw, NextEm, ResultW, JumpOf,
      LoadStall, CsrPort;
    NopDecodes();
    if JumpOf(s.core.fd.instr) {
      JumpNeverStalls(s.core);
    }
    if !s.core.fd.valid {
      NopNeverStalls(s.core);
    }
  }

  /** No edge of the run enters debug mode. */
  predicate NoHalt(imem: Top.Imem, s: Top.Sys, ps: seq<Top.Pins>)
    decreases |ps|
  {
    ps == [] || (!EnterDebug(s.core, ps[0].debugReq) && NoHalt(imem, Top.Next(imem, s, ps[0]), ps[1..]))
  }

  /** While a state has a positive rank and no halt is accepted, every edge is a bubble that leaves
      the abstract state to the timer, and the commit comes after exactly that many edges. */
  lemma {:induction false} WaitForCommit(imem: Top.Imem, s: Top.Sys, ps: seq<Top.Pins>)
    requires Inv(imem, s.core) && |ps| <= Rank(s.core) && NoHalt(imem, s, ps)
    ensures Inv(imem, Run(imem, s, ps).core) && Rank(Run(imem, s, ps).core) == Rank(s.core) - |ps|
    ensures Regular(imem, s, ps) && Actions(imem, s, ps) == seq(|ps|, _ => Quiet)
    decreases |ps|
  {
    hide Top.Next, Inv;
    if ps != [] {
      BubbleIsQuiet(imem, s, ps[0]);
      RankFalls(imem, s, ps[0]);
      InvNext(imem, s, ps[0]);
      WaitForCommit(imem, Top.Next(imem, s, ps[0]), ps[1..]);
    }
  }

  lemma BubbleIsQuiet(imem: Top.Imem, s: Top.Sys, p: Top.Pins)
    requires Inv(imem, s.core) && !s.core.de.valid && !EnterDebug(s.core, p.debugReq)
    ensures RegularEdge(imem, s, p) && ActionOf(s, p) == Quiet
  {}

  /** The cycles lost behind an event, told from the sequential machine alone: two if it halts, faults,
      is interrupted, jumps through a branch or JALR, or returns from a trap or from debug mode; one
      for a JAL, and for a load whose sequential successor reads its destination; none otherwise. */
  function Penalty(imem: Top.Imem, a: Isa.Arch, e: Isa.Env): nat {
    var w := imem(a.pc);
    var d := Isa.Decode(w);
    if !Isa.Executes(a, w, e) || ExecuteCorrect.Jumps(a, w) || d.Mret? || (d.Dret? && a.dbg.parked) then 2
    else if d.Jal? then 1
    else if d.Load? && d.rd != 0 && ExecuteCorrect.Reads(Isa.Decode(imem(Wrap(a.pc + 4))), d.rd) then 1
    else 0
  }

  lemma RedirectsAre(imem: Top.Imem, s: Top.Sys, p: Top.Pins)
    requires Inv(imem, s.core) && s.core.de.valid
    ensures var a, w, e := Abs(s), WordAt(imem, s), EnvOf(s, p);
            var d := Isa.Decode(w);
            Redirected(RedirectsOf(s.core, ExecOf(s.core, Clint.Mtip(s.mem.timer)), p.debugReq)) <==>
            !Isa.Executes(a, w, e) || ExecuteCorrect.Jumps(a, w) || d.Mret? || (d.Dret? && a.dbg.parked)
  {
    hide ControlOf, ImmOf, RdField, Rs1Field, Rs2Field, Funct3, SrcA, SrcB, AbsRegs, Execute, Top.NextMem,
      Isa.Decode, Isa.ExceptionOf, Isa.Interrupted, ExecuteCorrect.Jumps, JumpOf, LoadStall;
    OperandsCurrent(imem, s);
    ExecFacts(imem, s, p);
    ExecuteCorrect.KindsOfWord(WordAt(imem, s));
    ExecuteCorrect.JumpsCorrect(s.core.de, WordAt(imem, s), Abs(s), SrcA(s.core), SrcB(s.core),
      Clint.Mtip(s.mem.timer));
  }

  lemma StallIs(imem: Top.Imem, s: Top.Sys)
    requires Inv(imem, s.core) && s.core.de.valid
    ensures var d := Isa.Decode(WordAt(imem, s));
            LoadStall(s.core) <==>
            d.Load? && d.rd != 0 && ExecuteCorrect.Reads(Isa.Decode(imem(Wrap(Abs(s).pc + 4))), d.rd)
    ensures JumpOf(s.core.de.instr) == Isa.Decode(WordAt(imem, s)).Jal?
  {
    hide ControlOf, ImmOf, RdField, Rs1Field, Rs2Field, Funct3, Rs1Used, Rs2Used, AbsRegs, Top.NextMem,
      Isa.Decode, ExecuteCorrect.Reads, JumpOf;
    ExecuteCorrect.KindsOfWord(WordAt(imem, s));
    ExecuteCorrect.ReadsCorrect(s.core.fd.instr, s.core.de.rd);
  }

  /** The bubbles behind an instruction are exactly its penalty on the sequential machine. */
  lemma BubblesArePenalty(imem: Top.Imem, s: Top.Sys, p: Top.Pins)
    requires Inv(imem, s.core) && s.core.de.valid
    ensures Bubbles(s, p) == Penalty(imem, Abs(s), EnvOf(s, p))
  {
    hide Inv, Abs, AbsPc, EnvOf, RedirectsOf, Redirected, ExecOf, LoadStall, JumpOf, Isa.Decode, Isa.Executes,
      ExecuteCorrect.Jumps, ExecuteCorrect.Reads;
    PcOfAbs(s);
    RedirectsAre(imem, s, p);
    StallIs(imem, s);
  }

  lemma PcOfAbs(s: Top.Sys)
    ensures Abs(s).pc == AbsPc(s.core)
  {
    hide AbsRegs, Top.NextMem, AbsPc;
  }

  /** The gap between consecutive commits is exactly three, two or one edges, by the penalty of the
      event on the sequential machine. */
  lemma CommitGap(imem: Top.Imem, s: Top.Sys, ps: seq<Top.Pins>)
    requires Inv(imem, s.core) && s.core.de.valid
    requires 1 <= |ps| <= Penalty(imem, Abs(s), EnvOf(s, ps[0])) + 1
    requires NoHalt(imem, Top.Next(imem, s, ps[0]), ps[1..])
    ensures Run(imem, s, ps).core.de.valid <==> |ps| == Penalty(imem, Abs(s), EnvOf(s, ps[0])) + 1
  {
    hide Top.Next, Inv, Bubbles, Penalty, Abs, EnvOf;
    BubblesArePenalty(imem, s, ps[0]);
    RankAfterCommit(imem, s, ps[0]);
    InvNext(imem, s, ps[0]);
    WaitForCommit(imem, Top.Next(imem, s, ps[0]), ps[1..]);
  }

  // ---- halts on bubbles ----

  /** The address of the next instruction when execute holds one. */
  function Successor(s: Top.Sys, p: Top.Pins): Word {
    var x := ExecOf(s.core, Clint.Mtip(s.mem.timer));
    var r := RedirectsOf(s.core, x, p.debugReq);
    if Redirected(r) then PcNext(s.core, x, r, p.haltAddr)
    else if JumpOf(s.core.de.instr) then Add(s.core.de.pc, s.core.de.imm)
    else Add(s.core.de.pc, 4)
  }

  /** The address that the `k`-th bubble behind an instruction carries: zero in a slot flushed on the
      way into execute; the JAL's own address behind a JAL; and in the second slot behind an
      execute-stage redirect what decode held when it was flushed, which is the address after the
      redirecting instruction, unless that is a JAL, which has its own address there. */
  function BubblePc(s: Top.Sys, p: Top.Pins, k: nat): Word {
    var e := s.core.de;
    var x := ExecOf(s.core, Clint.Mtip(s.mem.timer));
    if k == 1 && (Redirected(RedirectsOf(s.core, x, p.debugReq)) || LoadStall(s.core)) then 0
    else if JumpOf(e.instr) then e.pc
    else Add(e.pc, 4)
  }

  lemma FirstBubble(imem: Top.Imem, s: Top.Sys, p: Top.Pins)
    requires Inv(imem, s.core) && s.core.de.valid && Bubbles(s, p) > 0
    ensures var c' := Top.Next(imem, s, p).core;
            c'.de.pc == BubblePc(s, p, 1) && (Bubbles(s, p) == 2 ==> c'.fd.pc == BubblePc(s, p, 2) && !c'.fd.valid)
  {
    hide ControlOf, ImmOf, RdField, Rs1Field, Rs2Field, Funct3, ExecOf, NextMw, NextEm, ResultW, JumpOf,
      LoadStall, CsrPort;
  }

  lemma SecondBubble(imem: Top.Imem, s: Top.Sys, p: Top.Pins)
    requires Inv(imem, s.core) && Rank(s.core) == 2 && !EnterDebug(s.core, p.debugReq)
    ensures Top.Next(imem, s, p).core.de.pc == s.core.fd.pc
  {
    hide ControlOf, ImmOf, RdField, Rs1Field, Rs2Field, Funct3, SrcA, SrcB, AluOf, NextMw, ResultW, JumpOf,
      CsrWdata, NextEm;
    NopDecodes();
  }

  /** The architectural halt of the next instruction. */
  ghost predicate HaltsRight(imem: Top.Imem, t: Top.Sys, p: Top.Pins) {
    Abs(Top.Next(imem, t, p)) == Isa.Halt(Abs(t), WordAt(imem, t), EnvOf(t, p))
  }

  lemma BubbleRun(imem: Top.Imem, s: Top.Sys, ps: seq<Top.Pins>)
    requires Inv(imem, s.core) && s.core.de.valid
    requires 1 <= |ps| <= Bubbles(s, ps[0]) && NoHalt(imem, Top.Next(imem, s, ps[0]), ps[1..])
    ensures var t := Run(imem, s, ps).core;
            && Inv(imem, t) && !t.de.valid && AbsPc(t) == Successor(s, ps[0]) && t.de.pc == BubblePc(s, ps[0], |ps|)
  {
    hide Inv, Bubbles, Top.Next, BubblePc, Successor, EnterDebug, AbsPc;
    var s' := Top.Next(imem, s, ps[0]);
    RankAfterCommit(imem, s, ps[0]);
    BubblesAtMostTwo(s, ps[0]);
    InvNext(imem, s, ps[0]);
    FirstBubble(imem, s, ps[0]);
    SuccessorIsNext(imem, s, ps[0]);
    if |ps| == 2 {
      assert Run(imem, s', ps[1..]) == Run(imem, Top.Next(imem, s', ps[1]), ps[1..][1..]);
      RankFalls(imem, s', ps[1]);
      InvNext(imem, s', ps[1]);
      SecondBubble(imem, s', ps[1]);
      BubbleKeepsPc(imem, s', ps[1]);
    }
  }

  lemma BubblesAtMostTwo(s: Top.Sys, p: Top.Pins)
    ensures Bubbles(s, p) <= 2
  {
    hide ExecOf, LoadStall, RedirectsOf;
  }

  lemma SuccessorIsNext(imem: Top.Imem, s: Top.Sys, p: Top.Pins)
    requires Inv(imem, s.core) && s.core.de.valid
    ensures AbsPc(Top.Next(imem, s, p).core) == Successor(s, p)
  {
    hide Inv, ExecOf, RedirectsOf, PcNext, JumpOf, Datapath.Next, AbsPc;
    PcAfterCommit(imem, s.core, Top.InputsOf(imem, s, p));
  }

  lemma BubbleKeepsPc(imem: Top.Imem, s: Top.Sys, p: Top.Pins)
    requires Inv(imem, s.core) && !s.core.de.valid && !EnterDebug(s.core, p.debugReq)
    ensures AbsPc(Top.Next(imem, s, p).core) == AbsPc(s.core)
  {
    hide Inv, Top.Next, AbsRegs, Top.NextMem;
    BubbleStep(imem, s, p);
  }

  /** A halt accepted on the `k`-th bubble behind an instruction records that bubble's address. It is
      the architectural halt if and only if that is where the instruction sends execution, and no
      ebreak is there. */
  lemma HaltBehindCommit(imem: Top.Imem, s: Top.Sys, ps: seq<Top.Pins>, p: Top.Pins)
    requires Inv(imem, s.core) && s.core.de.valid
    requires 1 <= |ps| <= Bubbles(s, ps[0]) && NoHalt(imem, Top.Next(imem, s, ps[0]), ps[1..])
    requires EnterDebug(Run(imem, s, ps).core, p.debugReq)
    ensures var t := Run(imem, s, ps);
            var target, recorded := Successor(s, ps[0]), BubblePc(s, ps[0], |ps|);
            && Top.Next(imem, t, p).core.dbg.dpc == recorded
            && (HaltsRight(imem, t, p) <==> target == recorded && !Isa.Decode(imem(target)).Ebreak?)
  {
    hide Inv, Top.Next, Run, Successor, BubblePc, Bubbles, NoHalt, EnterDebug, Isa.Decode, AbsRegs,
      Top.NextMem;
    var t := Run(imem, s, ps);
    BubbleRun(imem, s, ps);
    HaltOnBubble(imem, t, p);
    AbsDebug(Top.Next(imem, t, p));
  }

  lemma AbsDebug(s: Top.Sys)
    ensures Abs(s).dbg == s.core.dbg
  {
    hide AbsRegs, AbsPc, Top.NextMem;
  }

  // Every bubble outside debug mode is one of those, or the pipeline is still filling after reset.

  lemma {:induction false} RunSnoc(imem: Top.Imem, s: Top.Sys, ps: seq<Top.Pins>, p: Top.Pins)
    ensures Run(imem, s, ps + [p]) == Top.Next(imem, Run(imem, s, ps), p)
    ensures NoHalt(imem, s, ps) && !EnterDebug(Run(imem, s, ps).core, p.debugReq) ==> NoHalt(imem, s, ps + [p])
    decreases |ps|
  {
    hide Top.Next, EnterDebug;
    if ps == [] {
      assert [p][1..] == [];
      assert Run(imem, s, [p]) == Run(imem, Top.Next(imem, s, p), []);
    } else {
      assert (ps + [p])[1..] == ps[1..] + [p];
      RunSnoc(imem, Top.Next(imem, s, ps[0]), ps[1..], p);
    }
  }

  lemma {:induction false} RunInv(imem: Top.Imem, s: Top.Sys, ps: seq<Top.Pins>)
    requires Inv(imem, s.core)
    ensures Inv(imem, Run(imem, s, ps).core)
    decreases |ps|
  {
    hide Inv, Top.Next;
    if ps != [] {
      InvNext(imem, s, ps[0]);
      RunInv(imem, Top.Next(imem, s, ps[0]), ps[1..]);
    }
  }

  /** Edge `k` of the run leaves an instruction, and only bubbles follow, without a halt. */
  ghost predicate BehindCommit(imem: Top.Imem, s: Top.Sys, ps: seq<Top.Pins>, k: nat) {
    && k < |ps|
    && var s' := Run(imem, s, ps[..k]);
       && s'.core.de.valid && |ps| - k <= Bubbles(s', ps[k])
       && NoHalt(imem, Top.Next(imem, s', ps[k]), ps[k + 1..])
       && Run(imem, s, ps) == Run(imem, s', ps[k..])
  }

  lemma BubbleStaysOut(imem: Top.Imem, s: Top.Sys, p: Top.Pins)
    requires Inv(imem, s.core) && !s.core.de.valid && !Top.Next(imem, s, p).core.dbg.parked
    ensures !s.core.dbg.parked && !EnterDebug(s.core, p.debugReq)
  {
    hide ControlOf, ExecOf, CsrFile.Next, CsrPort, PcNext, NextFd, NextDe, NextEm, NextMw, Top.NextMem,
      LoadStall;
  }

  /** Where every bubble outside debug mode comes from, over all runs from reset and all inputs. */
  lemma {:induction false} BubbleOrigin(imem: Top.Imem, rf: RegFile.Regs, ram: Dmem.Ram, ps: seq<Top.Pins>)
    requires var t := Run(imem, Top.ResetState(rf, ram), ps).core; !t.de.valid && !t.dbg.parked
    ensures |ps| < 2 || exists k: nat :: BehindCommit(imem, Top.ResetState(rf, ram), ps, k)
    decreases |ps|
  {
    hide Inv, Top.Next, Run, NoHalt, Bubbles, EnterDebug;
    var s := Top.ResetState(rf, ram);
    if |ps| >= 2 {
      var qs, p := ps[..|ps| - 1], ps[|ps| - 1];
      assert ps == qs + [p];
      var t := Run(imem, s, qs);
      RunSnoc(imem, s, qs, p);
      ResetInv(imem, rf);
      RunInv(imem, s, qs);
      if t.core.de.valid {
        RankAfterCommit(imem, t, p);
        LastCommit(imem, s, qs, p);
      } else {
        BubbleStaysOut(imem, t, p);
        RankFalls(imem, t, p);
        BubbleOrigin(imem, rf, ram, qs);
        if |qs| < 2 {
          assert qs == [qs[0]];
          FillEnds(imem, rf, ram, qs[0]);
        } else {
          var k: nat :| BehindCommit(imem, s, qs, k);
          LaterBubble(imem, s, qs, p, k);
        }
      }
    }
  }

  lemma LastCommit(imem: Top.Imem, s: Top.Sys, qs: seq<Top.Pins>, p: Top.Pins)
    requires Run(imem, s, qs).core.de.valid && Bubbles(Run(imem, s, qs), p) >= 1
    ensures BehindCommit(imem, s, qs + [p], |qs|)
  {
    hide Top.Next, Bubbles;
    var ps := qs + [p];
    assert ps[..|qs|] == qs && ps[|qs|..] == [p] && ps[|qs| + 1..] == [] && [p][1..] == [];
    RunSnoc(imem, s, qs, p);
    RunSnoc(imem, Run(imem, s, qs), [], p);
    assert [] + [p] == [p];
  }

  lemma LaterBubble(imem: Top.Imem, s: Top.Sys, qs: seq<Top.Pins>, p: Top.Pins, k: nat)
    requires Inv(imem, s.core) && BehindCommit(imem, s, qs, k)
    requires var t := Run(imem, s, qs);
             && Inv(imem, t.core) && !t.core.de.valid && !EnterDebug(t.core, p.debugReq)
             && Rank(Top.Next(imem, t, p).core) > 0
    ensures BehindCommit(imem, s, qs + [p], k)
  {
    hide Inv, Top.Next, Run, NoHalt, Bubbles, EnterDebug;
    var ps, s' := qs + [p], Run(imem, s, qs[..k]);
    assert ps[..k] == qs[..k] && ps[k..] == qs[k..] + [p] && ps[k + 1..] == qs[k + 1..] + [p] && ps[k] == qs[k];
    var after := Top.Next(imem, s', qs[k]);
    RunInv(imem, s, qs[..k]);
    InvNext(imem, s', qs[k]);
    RankAfterCommit(imem, s', qs[k]);
    RunHead(imem, s', qs[k..]);
    assert qs[k..][1..] == qs[k + 1..];
    WaitForCommit(imem, after, qs[k + 1..]);
    RankFalls(imem, Run(imem, s, qs), p);
    RunSnoc(imem, s, qs, p);
    RunSnoc(imem, s', qs[k..], p);
    RunSnoc(imem, after, qs[k + 1..], p);
  }

  lemma RunHead(imem: Top.Imem, s: Top.Sys, ps: seq<Top.Pins>)
    requires ps != []
    ensures Run(imem, s, ps) == Run(imem, Top.Next(imem, s, ps[0]), ps[1..])
  {
    hide Top.Next;
  }

  /** While the pipeline fills after reset every bubble carries address zero, which is right. */
  lemma FillEnds(imem: Top.Imem, rf: RegFile.Regs, ram: Dmem.Ram, p: Top.Pins)
    requires !Run(imem, Top.ResetState(rf, ram), [p]).core.dbg.parked
    ensures var t := Run(imem, Top.ResetState(rf, ram), [p]).core;
            AbsPc(t) == 0 && t.de.pc == 0 && Rank(t) == 1
  {
    hide Top.Next, Inv, EnterDebug;
    var s := Top.ResetState(rf, ram);
    ResetInv(imem, rf);
    RunSnoc(imem, s, [], p);
    assert [] + [p] == [p];
    BubbleStaysOut(imem, s, p);
    RankFalls(imem, s, p);
    SecondBubble(imem, s, p);
    BubbleKeepsPc(imem, s, p);
  }

  /** The halt is explained by the instruction at edge `k`: it records the address that the bubble
      carries, and is right exactly when that instruction sends execution there. */
  ghost predicate HaltExplained(imem: Top.Imem, s: Top.Sys, ps: seq<Top.Pins>, p: Top.Pins, k: nat) {
    && BehindCommit(imem, s, ps, k)
    && var s', t := Run(imem, s, ps[..k]), Run(imem, s, ps);
       var target, recorded := Successor(s', ps[k]), BubblePc(s', ps[k], |ps| - k);
       && Top.Next(imem, t, p).core.dbg.dpc == recorded
       && (HaltsRight(imem, t, p) <==> target == recorded && !Isa.Decode(imem(target)).Ebreak?)
  }

  /** Over all runs from reset: a halt accepted on a bubble either comes on one of the two edges that
      fill the pipeline, and records address zero rightly, or is explained by the last instruction
      to leave execute. */
  lemma HaltOnAnyBubble(imem: Top.Imem, rf: RegFile.Regs, ram: Dmem.Ram, ps: seq<Top.Pins>, p: Top.Pins)
    requires var t := Run(imem, Top.ResetState(rf, ram), ps).core; !t.de.valid && EnterDebug(t, p.debugReq)
    ensures var s := Top.ResetState(rf, ram);
            var t := Run(imem, s, ps);
            if |ps| < 2 then
              Top.Next(imem, t, p).core.dbg.dpc == 0 && (HaltsRight(imem, t, p) <==> !Isa.Decode(imem(0)).Ebreak?)
            else
              exists k: nat :: HaltExplained(imem, s, ps, p, k)
  {
    hide Inv, Top.Next, NoHalt, Bubbles, HaltsRight, Isa.Decode, HaltExplained, BehindCommit, Run;
    var s := Top.ResetState(rf, ram);
    var t := Run(imem, s, ps);
    ResetInv(imem, rf);
    RunInv(imem, s, ps);
    BubbleOrigin(imem, rf, ram, ps);
    if |ps| < 2 {
      FillPc(imem, rf, ram, ps);
      HaltOnBubble(imem, t, p);
      AbsDebug(Top.Next(imem, t, p));
      HaltsRightMeans(imem, t, p);
    } else {
      var k: nat :| BehindCommit(imem, s, ps, k);
      Explained(imem, s, ps, p, k);
    }
  }

  lemma Explained(imem: Top.Imem, s: Top.Sys, ps: seq<Top.Pins>, p: Top.Pins, k: nat)
    requires Inv(imem, s.core) && BehindCommit(imem, s, ps, k) && EnterDebug(Run(imem, s, ps).core, p.debugReq)
    ensures HaltExplained(imem, s, ps, p, k)
  {
    hide Inv, Top.Next, NoHalt, Bubbles, HaltsRight, Isa.Decode, Successor, BubblePc, Run, EnterDebug;
    RunInv(imem, s, ps[..k]);
    assert ps[k..][0] == ps[k] && ps[k..][1..] == ps[k + 1..];
    HaltBehindCommit(imem, Run(imem, s, ps[..k]), ps[k..], p);
  }

  lemma FillPc(imem: Top.Imem, rf: RegFile.Regs, ram: Dmem.Ram, ps: seq<Top.Pins>)
    requires |ps| < 2 && !Run(imem, Top.ResetState(rf, ram), ps).core.dbg.parked
    ensures var t := Run(imem, Top.ResetState(rf, ram), ps).core; AbsPc(t) == 0 && t.de.pc == 0
  {
    hide Top.Next;
    if |ps| == 1 {
      assert ps == [ps[0]];
      FillEnds(imem, rf, ram, ps[0]);
    }
  }

  lemma HaltsRightMeans(imem: Top.Imem, t: Top.Sys, p: Top.Pins)
    ensures HaltsRight(imem, t, p) <==> Abs(Top.Next(imem, t, p)) == Isa.Halt(Abs(t), WordAt(imem, t), EnvOf(t, p))
  {
    hide Top.Next, Abs, Isa.Halt, WordAt;
  }

  // ---- redirects against the interlock ----

  /** In every reachable state the load-use stall never meets a branch, JALR, JAL, mret or debug
      exit; when it meets a trap or a debug entry, the redirect target is in the PC next cycle and
      the stalled instruction is gone. */
  lemma StallMeetsRedirect(imem: Top.Imem, s: Top.Sys, p: Top.Pins)
    requires Inv(imem, s.core) && LoadStall(s.core)
    ensures var x := ExecOf(s.core, Clint.Mtip(s.mem.timer));
            var r := RedirectsOf(s.core, x, p.debugReq);
            var c' := Top.Next(imem, s, p).core;
            && !r.pcSrcE && !r.jumpD && !r.mretEn && !r.exitDebug
            && (r.trapEn || r.enterDebug ==>
                  && c'.pcf == (if r.enterDebug then p.haltAddr else s.core.csrs.mtvec)
                  && c'.fd.instr == NOP_INSTR && !c'.fd.valid && c'.de == DE_BUBBLE && c'.em == EM_BUBBLE)
            && (!r.trapEn && !r.enterDebug ==> c'.pcf == s.core.pcf && c'.fd == s.core.fd && c'.de == DE_BUBBLE)
  {
    hide ImmOf, RdField, Rs1Field, Rs2Field, Funct3, SrcA, SrcB, AluOf, NextMw, ResultW, JumpOf, CsrWdata,
      Rs1Used, Rs2Used;
    LoadFacts(imem(s.core.de.pc));
    if JumpOf(s.core.fd.instr) {
      JumpNeverStalls(s.core);
    }
  }

  lemma LoadFacts(w: Word)
    ensures ControlOf(w).resultSrc == RESULT_MEM ==>
              var k := ControlOf(w); !k.branch && !k.jalr && !k.isMret && !k.isDret && !k.isEbreak
  {}
}
