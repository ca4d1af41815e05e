/** One clock edge of the pipeline against the sequential machine. Everything is decided in the
    execute stage, which never stalls, so the abstraction takes execute as the commit point. */
module Refinement {
  import opened Words
  import opened Rv32iPkg
  import opened Controller
  import opened Datapath
  import Clint
  import CsrFile
  import DebugFsm
  import ExecuteCorrect
  import HazardUnit
  import Isa
  import MemBus
  import MemoryCorrect
  import RegFile
  import Top

  // ---- invariant ----

  /** A bubble in execute: it may carry the register-write bit of a decoded NOP, but only to x0. */
  predicate Bubble(e: IdEx) {
    var k := e.ctrl;
    && e.rd == 0 && e.rs1 == 0 && e.rs2 == 0 && k.resultSrc == RESULT_ALU
    && !k.memWrite && !k.branch && !k.jalr
    && !k.isEbreak && !k.isDret && !k.isEcall && !k.isMret && !k.isCsr && !k.isIllegal
  }

  ghost predicate DecodeInv(imem: Top.Imem, c: Core) {
    if c.fd.valid then c.fd.instr == imem(c.fd.pc) && c.fd.pcPlus4 == Add(c.fd.pc, 4) && c.pcf == c.fd.pcPlus4
    else c.fd.instr == NOP_INSTR
  }

  ghost predicate ExecuteInv(imem: Top.Imem, c: Core) {
    if c.de.valid then ExecuteCorrect.Holds(c.de, imem(c.de.pc)) else Bubble(c.de)
  }

  /** Register reads of the execute stage are those of the register file as it stands now. */
  ghost predicate ReadInv(c: Core) {
    c.de.rd1 == RegFile.Get(c.rf, c.de.rs1) && c.de.rd2 == RegFile.Get(c.rf, c.de.rs2)
  }

  /** What follows an instruction in execute: its sequential successor, or after a JAL its target,
      behind a flushed decode slot that still holds the JAL's own address. */
  ghost predicate FlowInv(c: Core) {
    c.de.valid ==>
      if JumpOf(c.de.instr) then !c.fd.valid && c.fd.pc == c.de.pc && c.pcf == Add(c.de.pc, c.de.imm)
      else c.fd.valid && c.fd.pc == Add(c.de.pc, 4)
  }

  /** A load in the memory stage never feeds an operand that the execute stage uses. */
  ghost predicate LoadUseInv(c: Core) {
    c.em.regWrite && c.em.resultSrc == RESULT_MEM && c.em.rd != 0 ==>
      && (Rs1Used(c.de.instr) ==> c.de.rs1 != c.em.rd)
      && (Rs2Used(c.de.instr) ==> c.de.rs2 != c.em.rd)
  }

  ghost predicate Inv(imem: Top.Imem, c: Core) {
    DecodeInv(imem, c) && ExecuteInv(imem, c) && ReadInv(c) && FlowInv(c) && LoadUseInv(c)
  }

  lemma NopDecodes()
    ensures ControlOf(NOP_INSTR) ==
            Ctrl(true, false, false, true, false, false, RESULT_ALU, ALU_ADD,
                 false, false, false, false, false, 0, false, false)
    ensures !JumpOf(NOP_INSTR)
    ensures RdField(NOP_INSTR) == 0 && Rs1Field(NOP_INSTR) == 0 && Rs2Field(NOP_INSTR) == 0
  {
    assert Opcode(NOP_INSTR) == OP_ITYPE && Funct3(NOP_INSTR) == 0;
    assert !IsCsr(NOP_INSTR) && !IsPriv(NOP_INSTR);
  }

  lemma ResetInv(imem: Top.Imem, rf: RegFile.Regs)
    ensures Inv(imem, ResetState(rf))
  {}

  /** The opcode classes a decoded JAL is not in. */
  lemma JumpFacts(w: Word)
    ensures JumpOf(w) ==> var k := ControlOf(w);
      && !k.branch && !k.jalr && !k.isMret && !k.isDret && !k.isEbreak && !k.isIllegal && !k.isEcall
      && !Rs1Used(w) && !Rs2Used(w) && k.resultSrc == RESULT_PCPLUS4 && !k.memWrite
  {}

  lemma NextDeHolds(imem: Top.Imem, c: Core, h: HazardUnit.Controls)
    requires DecodeInv(imem, c)
    ensures var e := NextDe(c, h);
            if e.valid then
              && ExecuteCorrect.Holds(e, imem(e.pc)) && !h.flushE
              && e.pc == c.fd.pc && e.instr == c.fd.instr && c.fd.valid
            else Bubble(e)
  {
    hide ControlOf, JumpOf, RdField, Rs1Field, Rs2Field, Funct3, ImmOf;
    NopDecodes();
  }

  function ControlsOf(c: Core, i: Inputs): HazardUnit.Controls {
    HazardUnit.Resolve(LoadStall(c), RedirectsOf(c, ExecOf(c, i.mtip), i.debugReq))
  }

  lemma DecodeInvNext(imem: Top.Imem, c: Core, i: Inputs)
    requires Inv(imem, c) && i.instrF == imem(c.pcf)
    ensures DecodeInv(imem, Next(c, i))
  {
    hide ControlOf, JumpOf, ImmOf, ExecOf, CsrFile.Next, CsrPort, NextMw, NextEm, NextDe, LoadStall, ResultW;
  }

  lemma FlowInvNext(imem: Top.Imem, c: Core, i: Inputs)
    requires Inv(imem, c) && i.instrF == imem(c.pcf)
    ensures FlowInv(Next(c, i))
  {
    hide ControlOf, JumpOf, ImmOf, ExecOf, CsrFile.Next, CsrPort, NextMw, NextEm, LoadStall, ResultW,
      RdField, Rs1Field, Rs2Field, Funct3;
    NextDeHolds(imem, c, ControlsOf(c, i));
    if JumpOf(c.fd.instr) {
      JumpNeverStalls(c);
    }
  }

  /** JAL reads no register, so it is never held in decode by the load-use interlock. */
  lemma JumpNeverStalls(c: Core)
    requires JumpOf(c.fd.instr)
    ensures !LoadStall(c)
  {
    JumpFacts(c.fd.instr);
  }

  lemma ReadInvNext(c: Core, i: Inputs)
    ensures ReadInv(Next(c, i))
  {
    hide ControlOf, JumpOf, ImmOf, ExecOf, CsrFile.Next, CsrPort, NextMw, NextEm, NextFd, LoadStall, ResultW,
      RdField, Rs1Field, Rs2Field, Funct3;
  }

  lemma LoadUseInvNext(imem: Top.Imem, c: Core, i: Inputs)
    requires Inv(imem, c)
    ensures LoadUseInv(Next(c, i))
  {
    hide ControlOf, JumpOf, ImmOf, ExecOf, CsrFile.Next, CsrPort, NextMw, NextFd, ResultW, RdField, Rs1Field,
      Rs2Field, Funct3, Rs1Used, Rs2Used;
  }

  /** The invariant survives every clock edge, under all inputs. */
  lemma InvNext(imem: Top.Imem, s: Top.Sys, p: Top.Pins)
    requires Inv(imem, s.core)
    ensures Inv(imem, Top.Next(imem, s, p).core)
  {
    hide DecodeInv, FlowInv, ReadInv, LoadUseInv, NextDe, NextFd, NextEm, ExecOf, CsrPort, CsrFile.Next,
      PcNext, ControlOf, LoadStall;
    var c, i := s.core, Top.InputsOf(imem, s, p);
    DecodeInvNext(imem, c, i);
    NextDeHolds(imem, c, ControlsOf(c, i));
    ReadInvNext(c, i);
    FlowInvNext(imem, c, i);
    LoadUseInvNext(imem, c, i);
  }

  // ---- abstraction ----

  function AbsPc(c: Core): Word {
    if c.de.valid then c.de.pc else if c.fd.valid then c.fd.pc else c.pcf
  }

  /** The value the memory-stage instruction is about to carry into writeback. */
  function MemValue(s: Top.Sys): Word { ResultW(NextMw(s.core.em, Top.ReadData(s))) }

  function Pending(we: bool, rd: Reg, value: Word): Isa.Option<Isa.RegWrite> {
    if we then Isa.Some(Isa.RegWrite(rd, value)) else Isa.None
  }

  /** The register file once the instructions past execute have written back. */
  function AbsRegs(s: Top.Sys): RegFile.Regs {
    var c := s.core;
    Isa.SetReg(Isa.SetReg(c.rf[0 := 0], Pending(c.mw.regWrite, c.mw.rd, ResultW(c.mw))),
      Pending(c.em.regWrite, c.em.rd, MemValue(s)))
  }

  function Abs(s: Top.Sys): Isa.Arch {
    Isa.Arch(AbsPc(s.core), AbsRegs(s), s.core.csrs, s.core.dbg, Top.NextMem(s))
  }

  function EnvOf(s: Top.Sys, p: Top.Pins): Isa.Env {
    Isa.Env(Clint.Mtip(s.mem.timer), p.debugReq, p.haltAddr)
  }

  /** The instruction word at the abstract program counter. */
  function WordAt(imem: Top.Imem, s: Top.Sys): Word { imem(AbsPc(s.core)) }

  // ---- operands ----

  lemma ForwardedIsCurrent(s: Top.Sys, rs: Reg, fromRegFile: Word)
    requires fromRegFile == RegFile.Get(s.core.rf, rs)
    requires !(s.core.em.regWrite && s.core.em.resultSrc == RESULT_MEM && s.core.em.rd != 0 && s.core.em.rd == rs)
    ensures Forwarded(s.core, rs, fromRegFile) == RegFile.Get(AbsRegs(s), rs)
  {
    hide Top.ReadData, ResultW;
    var m := s.core.em;
    if m.resultSrc != RESULT_MEM {
      MemValueForwards(s);
    }
  }

  lemma MemValueForwards(s: Top.Sys)
    requires s.core.em.resultSrc != RESULT_MEM
    ensures MemValue(s) == FwdResultM(s.core.em)
  {}

  /** In every reachable state each operand the execute-stage instruction uses is the architectural
      register value, whichever of the register file, the bypass and the two forwarding paths it
      came through. */
  lemma OperandsCurrent(imem: Top.Imem, s: Top.Sys)
    requires Inv(imem, s.core) && s.core.de.valid
    ensures ExecuteCorrect.Operands(Abs(s), WordAt(imem, s), SrcA(s.core), SrcB(s.core))
  {
    hide Forwarded, AbsRegs, Rs1Used, Rs2Used, Rs1Field, Rs2Field, ControlOf, ImmOf;
    var c := s.core;
    if Rs1Used(c.de.instr) {
      ForwardedIsCurrent(s, c.de.rs1, c.de.rd1);
    }
    if Rs2Used(c.de.instr) {
      ForwardedIsCurrent(s, c.de.rs2, c.de.rd2);
    }
  }

  // ---- one edge ----

  /** The write that leaves execute at this edge. */
  function ExecWrite(s: Top.Sys, x: Exec, flushM: bool): Isa.Option<Isa.RegWrite> {
    if flushM then Isa.None
    else Pending(s.core.de.ctrl.regWrite, s.core.de.rd, ExecuteCorrect.Value(s.core.de, x, Top.NextMem(s)))
  }

  /** Retiring the writeback stage and advancing the memory stage change no architectural register;
      only the execute stage's own write does. */
  lemma RegsNext(imem: Top.Imem, s: Top.Sys, p: Top.Pins)
    ensures var i := Top.InputsOf(imem, s, p);
            var x := ExecOf(s.core, i.mtip);
            AbsRegs(Top.Next(imem, s, p)) == Isa.SetReg(AbsRegs(s), ExecWrite(s, x, ControlsOf(s.core, i).flushM))
  {
    hide ExecOf, CsrFile.Next, CsrPort, PcNext, NextFd, NextDe, LoadStall, SrcB, Top.NextMem, MemBus.Read,
      EnterDebug, ExitDebug, JumpOf;
    var s' := Top.Next(imem, s, p);
    var i := Top.InputsOf(imem, s, p);
    var x := ExecOf(s.core, i.mtip);
    assert s'.core.mw == NextMw(s.core.em, Top.ReadData(s));
    WritebackLands(s.core.rf, s.core.mw.regWrite, s.core.mw.rd, ResultW(s.core.mw));
    assert s'.core.rf[0 := 0] ==
           Isa.SetReg(s.core.rf[0 := 0], Pending(s.core.mw.regWrite, s.core.mw.rd, ResultW(s.core.mw)));
    if !ControlsOf(s.core, i).flushM {
      assert MemValue(s') == ExecuteCorrect.Value(s.core.de, x, Top.NextMem(s));
    }
  }

  lemma WritebackLands(rf: RegFile.Regs, we: bool, rd: Reg, v: Word)
    ensures RegFile.Write(rf, we, rd, v)[0 := 0] == Isa.SetReg(rf[0 := 0], Pending(we, rd, v))
  {}

  /** The redirects that the execute stage itself causes. */
  predicate Redirected(r: HazardUnit.Redirects) {
    r.pcSrcE || r.enterDebug || r.exitDebug || r.trapEn || r.mretEn
  }

  /** Where the abstract program counter goes when execute holds an instruction. */
  lemma PcAfterCommit(imem: Top.Imem, c: Core, i: Inputs)
    requires Inv(imem, c) && c.de.valid
    ensures var x := ExecOf(c, i.mtip);
            var r := RedirectsOf(c, x, i.debugReq);
            AbsPc(Next(c, i)) ==
            if Redirected(r) then PcNext(c, x, r, i.haltAddr)
            else if JumpOf(c.de.instr) then Add(c.de.pc, c.de.imm)
            else Add(c.de.pc, 4)
  {
    hide ExecOf, CsrFile.Next, CsrPort, NextMw, NextEm, LoadStall, ControlOf, JumpOf, ImmOf, RdField,
      Rs1Field, Rs2Field, Funct3, EnterDebug, ExitDebug, TrapEn, ResultW;
    var h := ControlsOf(c, i);
    NextDeHolds(imem, c, h);
    NopDecodes();
    if JumpOf(c.fd.instr) {
      JumpNeverStalls(c);
    }
    if !c.fd.valid {
      NopNeverStalls(c);
    }
  }

  lemma NopNeverStalls(c: Core)
    requires c.fd.instr == NOP_INSTR
    ensures !LoadStall(c)
  {
    NopDecodes();
  }

  /** A bubble in execute changes nothing at all, apart from the timer's count. */
  lemma BubbleStep(imem: Top.Imem, s: Top.Sys, p: Top.Pins)
    requires Inv(imem, s.core) && !s.core.de.valid && !EnterDebug(s.core, p.debugReq)
    ensures Abs(Top.Next(imem, s, p)) == Isa.Idle(Abs(s))
  {
    hide ControlOf, ImmOf, RdField, Rs1Field, Rs2Field, Funct3, SrcA, SrcB, AbsRegs, AluOf, CsrFile.Read,
      CsrWdata, MemBus.Next, NextMw, ResultW, Isa.StepMem, ExecuteCorrect.Value, JumpOf;
    var c, i := s.core, Top.InputsOf(imem, s, p);
    var x := ExecOf(c, i.mtip);
    assert !TrapEn(x) && !x.pcSrc && !ExitDebug(c);
    RegsNext(imem, s, p);
    var s' := Top.Next(imem, s, p);
    assert AbsRegs(s') == AbsRegs(s);
    var m := s'.core.em;
    MemoryCorrect.NoStoreCorrect(Top.NextMem(s), m.alu, m.wdata, m.funct3);
    NopDecodes();
    NextDeHolds(imem, c, ControlsOf(c, i));
  }

  /** Decode agrees with the architecture on the instructions that steer debug mode. */
  lemma DebugDecode(w: Word)
    ensures ControlOf(w).isEbreak == Isa.Decode(w).Ebreak?
    ensures ControlOf(w).isDret == Isa.Decode(w).Dret?
  {}

  lemma FlushedStoreNext(imem: Top.Imem, s: Top.Sys, p: Top.Pins)
    requires ControlsOf(s.core, Top.InputsOf(imem, s, p)).flushM
    ensures Top.NextMem(Top.Next(imem, s, p)) == Isa.StepMem(Top.NextMem(s), Isa.None)
  {
    hide ControlOf, SrcA, SrcB, ExecOf, CsrFile.Next, CsrPort, PcNext, NextFd, NextDe, MemBus.Next,
      Isa.StepMem, LoadStall;
    MemoryCorrect.NoStoreCorrect(Top.NextMem(s), 0, 0, 0);
  }

  /** Halting on a real instruction is the architectural halt. */
  lemma HaltStep(imem: Top.Imem, s: Top.Sys, p: Top.Pins)
    requires Inv(imem, s.core) && s.core.de.valid && EnterDebug(s.core, p.debugReq)
    ensures Abs(Top.Next(imem, s, p)) == Isa.Halt(Abs(s), WordAt(imem, s), EnvOf(s, p))
    ensures Isa.Halts(Abs(s), WordAt(imem, s), EnvOf(s, p))
  {
    hide ControlOf, ImmOf, RdField, Rs1Field, Rs2Field, Funct3, ExecOf, AbsRegs, Isa.StepMem, Top.NextMem,
      NextEm, NextMw, NextFd, NextDe, LoadStall, Isa.Decode, JumpOf;
    DebugDecode(WordAt(imem, s));
    var i := Top.InputsOf(imem, s, p);
    PcAfterCommit(imem, s.core, i);
    RegsNext(imem, s, p);
    FlushedStoreNext(imem, s, p);
  }

  lemma ExecFacts(imem: Top.Imem, s: Top.Sys, p: Top.Pins)
    requires Inv(imem, s.core) && s.core.de.valid
    ensures var x := ExecOf(s.core, Clint.Mtip(s.mem.timer));
            && x.timerInt == Isa.Interrupted(Abs(s), EnvOf(s, p))
            && (if x.exception then
                  Isa.ExceptionOf(Abs(s), WordAt(imem, s)) == Isa.Some(Isa.Exception(x.excCode, x.trapVal))
                else x.trapVal == 0 && Isa.ExceptionOf(Abs(s), WordAt(imem, s)).None?)
  {
    hide ControlOf, ImmOf, RdField, Rs1Field, Rs2Field, Funct3, SrcA, SrcB, AbsRegs, AluOf, CsrFile.Read,
      CsrWdata, Isa.ExceptionOf, Top.NextMem, Misaligned, TakeBranch;
    var c := s.core;
    OperandsCurrent(imem, s);
    ExecuteCorrect.ExceptionCorrect(c.de, WordAt(imem, s), Abs(s), SrcA(c), SrcB(c), Clint.Mtip(s.mem.timer));
  }

  /** An exception or an interrupt is the architectural trap entry, and the trapped instruction
      leaves no other trace. */
  lemma TrapStep(imem: Top.Imem, s: Top.Sys, p: Top.Pins)
    requires Inv(imem, s.core) && s.core.de.valid
    requires !EnterDebug(s.core, p.debugReq) && !ExitDebug(s.core)
    requires TrapEn(ExecOf(s.core, Clint.Mtip(s.mem.timer)))
    ensures Abs(Top.Next(imem, s, p)) == Isa.Step(Abs(s), WordAt(imem, s), EnvOf(s, p))
    ensures !Isa.Executes(Abs(s), WordAt(imem, s), EnvOf(s, p))
  {
    hide ControlOf, ImmOf, RdField, Rs1Field, Rs2Field, Funct3, ExecOf, AbsRegs, Isa.StepMem, Top.NextMem,
      NextEm, NextMw, NextFd, NextDe, LoadStall, Isa.Decode, JumpOf, Isa.ExceptionOf;
    var i := Top.InputsOf(imem, s, p);
    DebugDecode(WordAt(imem, s));
    ExecFacts(imem, s, p);
    PcAfterCommit(imem, s.core, i);
    RegsNext(imem, s, p);
    FlushedStoreNext(imem, s, p);
  }

  /** An instruction that neither halts nor traps. */
  ghost predicate Commits(s: Top.Sys, p: Top.Pins) {
    && s.core.de.valid && !EnterDebug(s.core, p.debugReq)
    && !TrapEn(ExecOf(s.core, Clint.Mtip(s.mem.timer)))
  }

  lemma CommittedStoreNext(imem: Top.Imem, s: Top.Sys, p: Top.Pins)
    requires Inv(imem, s.core) && Commits(s, p)
    ensures Top.NextMem(Top.Next(imem, s, p)) == Isa.StepMem(Top.NextMem(s), Isa.StoreOf(Abs(s), WordAt(imem, s)))
  {
    hide ControlOf, ImmOf, RdField, Rs1Field, Rs2Field, Funct3, SrcA, SrcB, AbsRegs, AluOf, CsrFile.Read,
      CsrWdata, CsrFile.Next, CsrPort, PcNext, NextFd, NextDe, MemBus.Next, Isa.StepMem, LoadStall,
      Isa.ExceptionOf, Isa.StoreOf, Isa.StoreWidth, Isa.Aligned, Abs, ExecuteCorrect.Operands;
    var c, w := s.core, WordAt(imem, s);
    var a, b := SrcA(c), SrcB(c);
    OperandsCurrent(imem, s);
    ExecFacts(imem, s, p);
    ExecuteCorrect.StoreCorrect(c.de, w, Abs(s), a, b);
    var alu := AluOf(c.de, a, b);
    assert 0 <= c.de.funct3 < 8 by {
      FunctRange(w);
    }
    if c.de.ctrl.memWrite {
      StoreIsAligned(Abs(s), w);
      MemoryCorrect.StoreCorrect(Top.NextMem(s), alu, b, c.de.funct3);
    } else {
      MemoryCorrect.NoStoreCorrect(Top.NextMem(s), alu, b, c.de.funct3);
    }
  }

  lemma FunctRange(w: Word)
    ensures 0 <= Funct3(w) < 8
  {}

  lemma StoreIsAligned(s: Isa.Arch, w: Word)
    requires Isa.ExceptionOf(s, w).None?
    ensures Isa.StoreOf(s, w).Some? ==> Isa.Aligned(Isa.StoreOf(s, w).value.width, Isa.StoreOf(s, w).value.addr)
  {}

  lemma CommittedWrite(imem: Top.Imem, s: Top.Sys, p: Top.Pins)
    requires Inv(imem, s.core) && Commits(s, p)
    ensures ExecWrite(s, ExecOf(s.core, Clint.Mtip(s.mem.timer)), false) ==
            Isa.WriteOf(Abs(s), WordAt(imem, s), Clint.Mtip(s.mem.timer))
  {
    hide ControlOf, ImmOf, RdField, Rs1Field, Rs2Field, Funct3, SrcA, SrcB, AbsRegs, Execute, Top.NextMem,
      Isa.WriteOf, Isa.ExceptionOf, ExecuteCorrect.Value;
    var c, w := s.core, WordAt(imem, s);
    OperandsCurrent(imem, s);
    ExecFacts(imem, s, p);
    ExecuteCorrect.WriteCorrect(c.de, w, Abs(s), SrcA(c), SrcB(c), Clint.Mtip(s.mem.timer));
  }

  lemma CommittedCsrs(imem: Top.Imem, s: Top.Sys, p: Top.Pins)
    requires Inv(imem, s.core) && Commits(s, p)
    ensures Top.Next(imem, s, p).core.csrs == Isa.NextCsrs(Abs(s), WordAt(imem, s), Clint.Mtip(s.mem.timer))
  {
    hide ControlOf, ImmOf, RdField, Rs1Field, Rs2Field, Funct3, SrcA, SrcB, AbsRegs, Execute, Top.NextMem,
      Isa.NextCsrs, Isa.ExceptionOf, CsrFile.Written, CsrFile.Returned, NextFd, NextDe, NextEm, NextMw,
      PcNext, LoadStall, TrapEn;
    var c, w := s.core, WordAt(imem, s);
    OperandsCurrent(imem, s);
    ExecuteCorrect.CsrCorrect(c.de, w, Abs(s), SrcA(c), SrcB(c), Clint.Mtip(s.mem.timer));
    SystemExclusive(w);
  }

  lemma SystemExclusive(w: Word)
    ensures ControlOf(w).isMret ==> !ControlOf(w).isCsr && !ControlOf(w).isDret
  {}

  lemma CommittedPc(imem: Top.Imem, s: Top.Sys, p: Top.Pins)
    requires Inv(imem, s.core) && Commits(s, p)
    ensures AbsPc(Top.Next(imem, s, p).core) == Isa.NextPc(Abs(s), WordAt(imem, s))
  {
    hide ControlOf, ImmOf, RdField, Rs1Field, Rs2Field, Funct3, SrcA, SrcB, AbsRegs, Execute, Top.NextMem,
      Isa.NextPc, Isa.ExceptionOf, Next, TrapEn;
    var c, w := s.core, WordAt(imem, s);
    OperandsCurrent(imem, s);
    PcAfterCommit(imem, c, Top.InputsOf(imem, s, p));
    ExecuteCorrect.NextPcCorrect(c.de, w, Abs(s), SrcA(c), SrcB(c), Clint.Mtip(s.mem.timer));
  }

  lemma CommittedDebug(imem: Top.Imem, s: Top.Sys, p: Top.Pins)
    requires Inv(imem, s.core) && Commits(s, p)
    ensures Top.Next(imem, s, p).core.dbg ==
            if Isa.Decode(WordAt(imem, s)).Dret? then s.core.dbg.(parked := false) else s.core.dbg
  {
    hide ControlOf, ImmOf, ExecOf, NextFd, NextDe, NextEm, NextMw, PcNext, LoadStall, CsrFile.Next,
      Isa.Decode;
    DebugDecode(WordAt(imem, s));
  }

  lemma CommittedRegs(imem: Top.Imem, s: Top.Sys, p: Top.Pins)
    requires Inv(imem, s.core) && Commits(s, p)
    ensures AbsRegs(Top.Next(imem, s, p)) ==
            Isa.SetReg(AbsRegs(s), Isa.WriteOf(Abs(s), WordAt(imem, s), Clint.Mtip(s.mem.timer)))
  {
    hide ExecOf, AbsRegs, Abs, Next, Isa.WriteOf, ExecWrite, Isa.SetReg, LoadStall, JumpOf, Inv;
    RegsNext(imem, s, p);
    CommittedWrite(imem, s, p);
  }

  lemma CommitExecutes(imem: Top.Imem, s: Top.Sys, p: Top.Pins)
    requires Inv(imem, s.core) && Commits(s, p)
    ensures Isa.Executes(Abs(s), WordAt(imem, s), EnvOf(s, p))
  {
    hide ControlOf, ImmOf, ExecOf, AbsRegs, Isa.Decode, Isa.ExceptionOf, Top.NextMem, Rs1Field, Rs2Field,
      RdField, Funct3;
    DebugDecode(WordAt(imem, s));
    ExecFacts(imem, s, p);
  }

  /** An instruction that commits has exactly its architectural effect. */
  lemma ExecuteStep(imem: Top.Imem, s: Top.Sys, p: Top.Pins)
    requires Inv(imem, s.core) && Commits(s, p)
    ensures Abs(Top.Next(imem, s, p)) == Isa.Step(Abs(s), WordAt(imem, s), EnvOf(s, p))
    ensures Isa.Executes(Abs(s), WordAt(imem, s), EnvOf(s, p))
  {
    hide AbsRegs, AbsPc, Isa.StepMem, Top.Next, Top.NextMem, Isa.Decode, Isa.ExceptionOf, Isa.WriteOf,
      Isa.StoreOf, Isa.NextPc, Isa.NextCsrs, Isa.SetReg, Inv, Commits, WordAt, Clint.Mtip, Isa.Halts,
      Isa.Interrupted, Isa.Trap, Isa.Halt;
    CommitExecutes(imem, s, p);
    CommittedRegs(imem, s, p);
    CommittedStoreNext(imem, s, p);
    CommittedPc(imem, s, p);
    CommittedCsrs(imem, s, p);
    CommittedDebug(imem, s, p);
  }

  // ---- the step theorem, and exactly where it stops ----

  /** A dret leaves debug mode on the very cycle an enabled timer interrupt is pending: the PC
      follows the dret while the CSR file takes the trap. */
  predicate ResumeRace(s: Top.Sys) {
    ExitDebug(s.core) && s.core.de.valid && s.core.csrs.mie && s.core.csrs.mtie && Clint.Mtip(s.mem.timer)
  }

  /** When execute holds an instruction, the edge performs the one sequential event of that
      instruction (execute, exception, interrupt, halt or resume) if and only if it is not the
      resume race. */
  lemma StepRefines(imem: Top.Imem, s: Top.Sys, p: Top.Pins)
    requires Inv(imem, s.core) && s.core.de.valid
    ensures Abs(Top.Next(imem, s, p)) == Isa.Step(Abs(s), WordAt(imem, s), EnvOf(s, p)) <==> !ResumeRace(s)
  {
    hide Abs, Top.Next, Isa.Step, Inv, WordAt, Clint.Mtip, Execute, SrcA, SrcB;
    ExecFacts(imem, s, p);
    if EnterDebug(s.core, p.debugReq) {
      HaltStep(imem, s, p);
      HaltIsStep(Abs(s), WordAt(imem, s), EnvOf(s, p));
    } else if !TrapEn(ExecOf(s.core, Clint.Mtip(s.mem.timer))) {
      ExecuteStep(imem, s, p);
      InterruptIsTrap(s, p);
    } else if !ExitDebug(s.core) {
      TrapStep(imem, s, p);
    } else {
      ResumeRaceSplits(imem, s, p);
    }
  }

  lemma HaltIsStep(a: Isa.Arch, w: Word, e: Isa.Env)
    ensures Isa.Halts(a, w, e) ==> Isa.Step(a, w, e) == Isa.Halt(a, w, e)
  {
    hide Isa.Halts, Isa.Halt, Isa.Trap, Isa.Executed, Isa.ExceptionOf;
  }

  lemma InterruptIsTrap(s: Top.Sys, p: Top.Pins)
    ensures s.core.de.valid && Isa.Interrupted(Abs(s), EnvOf(s, p)) ==> TrapEn(ExecOf(s.core, Clint.Mtip(s.mem.timer)))
    ensures ResumeRace(s) ==> Isa.Interrupted(Abs(s), EnvOf(s, p))
  {
    hide SrcA, SrcB, AbsRegs, Top.NextMem, AluOf, CsrFile.Read, CsrWdata, Misaligned, TakeBranch;
  }

  /** In the race the machine is left outside debug mode at `dpc`, with the trap entry committed:
      neither the resume nor the interrupt. */
  lemma ResumeRaceSplits(imem: Top.Imem, s: Top.Sys, p: Top.Pins)
    requires Inv(imem, s.core) && s.core.de.valid && ExitDebug(s.core)
    requires TrapEn(ExecOf(s.core, Clint.Mtip(s.mem.timer)))
    ensures ResumeRace(s)
    ensures var trapped := Isa.Step(Abs(s), WordAt(imem, s), EnvOf(s, p));
            && Abs(Top.Next(imem, s, p)) == trapped.(pc := s.core.dbg.dpc, dbg := s.core.dbg.(parked := false))
            && trapped.dbg.parked
            && Abs(Top.Next(imem, s, p)) != trapped
  {
    hide ControlOf, ImmOf, RdField, Rs1Field, Rs2Field, Funct3, ExecOf, AbsRegs, Isa.StepMem, Top.NextMem,
      NextEm, NextMw, NextFd, NextDe, LoadStall, Isa.Decode, JumpOf, Isa.ExceptionOf;
    var i := Top.InputsOf(imem, s, p);
    DebugDecode(WordAt(imem, s));
    DretFaultless(Abs(s), WordAt(imem, s));
    ExecFacts(imem, s, p);
    PcAfterCommit(imem, s.core, i);
    RegsNext(imem, s, p);
    FlushedStoreNext(imem, s, p);
  }

  lemma DretFaultless(a: Isa.Arch, w: Word)
    ensures Isa.Decode(w).Dret? ==> Isa.ExceptionOf(a, w).None? && !Isa.Decode(w).Ebreak?
  {}

  /** When execute holds a bubble and an external halt is accepted, the edge is the architectural halt
      of the next instruction, except that the resume address is the one the bubble carries and the
      cause is always the request. Which address each bubble carries is `Runs.HaltOnAnyBubble`. */
  lemma HaltOnBubble(imem: Top.Imem, s: Top.Sys, p: Top.Pins)
    requires Inv(imem, s.core) && !s.core.de.valid && EnterDebug(s.core, p.debugReq)
    ensures Abs(Top.Next(imem, s, p)) ==
            Isa.Halt(Abs(s), WordAt(imem, s), EnvOf(s, p)).(dbg := DebugFsm.Halted(s.core.dbg, s.core.de.pc, false))
    ensures Abs(Top.Next(imem, s, p)) == Isa.Halt(Abs(s), WordAt(imem, s), EnvOf(s, p)) <==>
            s.core.de.pc == AbsPc(s.core) && !Isa.Decode(WordAt(imem, s)).Ebreak?
  {
    hide ControlOf, ImmOf, RdField, Rs1Field, Rs2Field, Funct3, ExecOf, AbsRegs, Isa.StepMem, Top.NextMem,
      NextEm, NextMw, LoadStall, Isa.Decode, JumpOf;
    RegsNext(imem, s, p);
    FlushedStoreNext(imem, s, p);
  }

  /** In particular a halt accepted on the cycle after any execute-stage redirect records address
      zero as the place to resume, whatever the redirect's target was: the target is lost unless it
      is zero. */
  lemma HaltAfterRedirect(imem: Top.Imem, s: Top.Sys, p: Top.Pins, p': Top.Pins)
    requires Inv(imem, s.core)
    requires Redirected(RedirectsOf(s.core, ExecOf(s.core, Clint.Mtip(s.mem.timer)), p.debugReq))
    requires !Top.Next(imem, s, p).core.dbg.parked && p'.debugReq
    ensures var x := ExecOf(s.core, Clint.Mtip(s.mem.timer));
            var target := PcNext(s.core, x, RedirectsOf(s.core, x, p.debugReq), p.haltAddr);
            var s' := Top.Next(imem, s, p);
            && AbsPc(s'.core) == target
            && Top.Next(imem, s', p').core.dbg.dpc == 0
  {
    hide ControlOf, ImmOf, AbsRegs, Top.NextMem, NextEm, NextMw, LoadStall, JumpOf, CsrFile.Next, CsrPort,
      PcNext, SrcA, SrcB, AluOf, CsrFile.Read, CsrWdata, Misaligned, TakeBranch, ExecuteCorrect.Holds;
    var s' := Top.Next(imem, s, p);
    assert s'.core.de == DE_BUBBLE && !s'.core.fd.valid;
  }

  // ---- retirement ----

  /** What the retirement port shows for a writeback-stage register value. */
  function Row(w: MemWb): seq<Isa.Record> {
    if w.valid then
      [Isa.Record(w.pc, w.instr, Pending(w.regWrite, w.rd, ResultW(w)),
        if w.memWrite then Isa.Some(Isa.StoreRow(w.storeAddr, w.storeData, w.funct3)) else Isa.None)]
    else []
  }

  /** The retirement in writeback now, and the one in the memory stage that will be there next. */
  function RetiringW(s: Top.Sys): seq<Isa.Record> { Row(s.core.mw) }
  function RetiringM(s: Top.Sys): seq<Isa.Record> { Row(NextMw(s.core.em, Top.ReadData(s))) }

  lemma PcFromLink(pc: Word)
    ensures Wrap(Add(pc, 4) - 4) == pc
  {
    WrapAddLeft(pc + 4, -4);
  }

  /** Records move down the pipe unchanged, and exactly the instruction that executes enters it. */
  lemma RetireStep(imem: Top.Imem, s: Top.Sys, p: Top.Pins)
    requires Inv(imem, s.core)
    ensures RetiringW(Top.Next(imem, s, p)) == RetiringM(s)
    ensures RetiringM(Top.Next(imem, s, p)) ==
            if s.core.de.valid then Isa.Retires(Abs(s), WordAt(imem, s), EnvOf(s, p)) else []
  {
    assert RetiringW(Top.Next(imem, s, p)) == RetiringM(s) by {
      hide ControlOf, ExecOf, Top.NextMem, NextEm, LoadStall, CsrFile.Next, CsrPort, PcNext, NextDe, NextFd,
        Top.ReadData, ResultW;
    }
    if !s.core.de.valid || !Commits(s, p) {
      NothingRetires(imem, s, p);
    } else {
      CommitRetires(imem, s, p);
    }
  }

  lemma NothingRetires(imem: Top.Imem, s: Top.Sys, p: Top.Pins)
    requires Inv(imem, s.core) && !Commits(s, p)
    ensures RetiringM(Top.Next(imem, s, p)) == []
    ensures s.core.de.valid ==> Isa.Retires(Abs(s), WordAt(imem, s), EnvOf(s, p)) == []
  {
    hide ControlOf, ImmOf, ExecOf, AbsRegs, Isa.Decode, Isa.ExceptionOf, Top.NextMem, Rs1Field, Rs2Field,
      RdField, Funct3, LoadStall, CsrFile.Next, CsrPort, PcNext, NextDe, NextFd, Top.ReadData, ResultW,
      JumpOf, Isa.RecordOf;
    DebugDecode(WordAt(imem, s));
    if s.core.de.valid {
      ExecFacts(imem, s, p);
    }
  }

  lemma CommitRetires(imem: Top.Imem, s: Top.Sys, p: Top.Pins)
    requires Inv(imem, s.core) && Commits(s, p)
    ensures RetiringM(Top.Next(imem, s, p)) == Isa.Retires(Abs(s), WordAt(imem, s), EnvOf(s, p))
  {
    hide ControlOf, ImmOf, RdField, Rs1Field, Rs2Field, Funct3, SrcA, SrcB, AbsRegs, AluOf, CsrFile.Read,
      CsrWdata, CsrFile.Next, CsrPort, PcNext, NextFd, NextDe, MemBus.Next, Isa.StoreOf, Isa.StoreWidth,
      Isa.WriteOf, LoadStall, Isa.Executes, ExecuteCorrect.Operands, Top.NextMem, JumpOf, MemBus.Read,
      Misaligned, TakeBranch, EnterDebug, ExitDebug, Add, Wrap;
    var c, w := s.core, WordAt(imem, s);
    CommitExecutes(imem, s, p);
    CommittedWrite(imem, s, p);
    OperandsCurrent(imem, s);
    ExecuteCorrect.StoreCorrect(c.de, w, Abs(s), SrcA(c), SrcB(c));
    PcFromLink(c.de.pc);
  }
}
