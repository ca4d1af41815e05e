/** The five-stage pipeline (rtl/datapath.sv wired to rtl/hazard_unit.sv, rtl/controller.sv and
    rtl/debug_fsm.sv as rtl/riscv_pipe.sv does): its registers, its combinational blocks and one
    clock edge. */
module Datapath {
  import opened Words
  import opened Rv32iPkg
  import opened Controller
  import Alu
  import CsrFile
  import DebugFsm
  import HazardUnit
  import RegFile

  // ---- pipeline registers ----

  datatype IfId = IfId(instr: Word, pc: Word, pcPlus4: Word, valid: bool)

  datatype IdEx = IdEx(
    ctrl: Ctrl, rd: Reg, rs1: Reg, rs2: Reg, funct3: int, rd1: Word, rd2: Word,
    pc: Word, pcPlus4: Word, imm: Word, instr: Word, valid: bool)

  datatype ExMem = ExMem(
    regWrite: bool, memWrite: bool, resultSrc: TwoBits, funct3: int, alu: Word, wdata: Word,
    rd: Reg, pcPlus4: Word, instr: Word, csrRdata: Word, valid: bool)

  datatype MemWb = MemWb(
    regWrite: bool, resultSrc: TwoBits, alu: Word, readData: Word, rd: Reg, pcPlus4: Word,
    instr: Word, pc: Word, csrRdata: Word, valid: bool,
    memWrite: bool, storeAddr: Word, storeData: Word, funct3: int)

  datatype Core = Core(
    pcf: Word, fd: IfId, de: IdEx, em: ExMem, mw: MemWb,
    rf: RegFile.Regs, csrs: CsrFile.Csrs, dbg: DebugFsm.Debug)

  /** What a core sees from outside in one cycle. */
  datatype Inputs = Inputs(instrF: Word, readData: Word, mtip: bool, debugReq: bool, haltAddr: Word)

  const FD_RESET: IfId := IfId(NOP_INSTR, 0, 0, false)
  const DE_BUBBLE: IdEx := IdEx(CTRL_BUBBLE, 0, 0, 0, 0, 0, 0, 0, 0, 0, NOP_INSTR, false)
  const EM_BUBBLE: ExMem := ExMem(false, false, RESULT_ALU, 0, 0, 0, 0, 0, NOP_INSTR, 0, false)
  const MW_RESET: MemWb := MemWb(false, RESULT_ALU, 0, 0, 0, 0, NOP_INSTR, 0, 0, false, false, 0, 0, 0)

  function ResetState(rf: RegFile.Regs): Core {
    Core(0, FD_RESET, DE_BUBBLE, EM_BUBBLE, MW_RESET, rf, CsrFile.RESET, DebugFsm.RESET)
  }

  // ---- cells.sv ----

  function Mux3(d0: Word, d1: Word, d2: Word, s: TwoBits): Word {
    if s / 2 == 1 then d2 else if s % 2 == 1 then d1 else d0
  }

  function Mux4(d0: Word, d1: Word, d2: Word, d3: Word, s: TwoBits): Word {
    if s / 2 == 1 then (if s % 2 == 1 then d3 else d2) else if s % 2 == 1 then d1 else d0
  }

  // ---- writeback and memory stages ----

  function ResultW(w: MemWb): Word { Mux4(w.alu, w.readData, w.pcPlus4, w.csrRdata, w.resultSrc) }

  function FwdResultM(m: ExMem): Word {
    if m.resultSrc == RESULT_CSR then m.csrRdata
    else if m.resultSrc == RESULT_PCPLUS4 then m.pcPlus4
    else m.alu
  }

  // ---- execute stage ----

  function Forwarded(c: Core, rs: Reg, fromRegFile: Word): Word {
    Mux3(fromRegFile, ResultW(c.mw), FwdResultM(c.em),
      HazardUnit.Select(c.em.regWrite, c.em.rd, c.mw.regWrite, c.mw.rd, rs))
  }

  function SrcA(c: Core): Word { Forwarded(c, c.de.rs1, c.de.rd1) }
  function SrcB(c: Core): Word { Forwarded(c, c.de.rs2, c.de.rd2) }

  predicate TakeBranch(funct3: int, aluResult: Word) {
    if funct3 == 0 then Alu.Zero(aluResult)
    else if funct3 == 1 then !Alu.Zero(aluResult)
    else if funct3 == 4 then Alu.Lt(aluResult)
    else if funct3 == 5 then !Alu.Lt(aluResult)
    else if funct3 == 6 then Alu.Lt(aluResult)
    else if funct3 == 7 then !Alu.Lt(aluResult)
    else false
  }

  function CsrWdata(op: TwoBits, old_: Word, operand: Word): Word {
    if op == 1 then operand
    else if op == 2 then Bitwise(OrGate, old_, operand)
    else if op == 3 then Bitwise(AndGate, old_, Not(operand))
    else old_
  }

  predicate Misaligned(funct3: int, addr: Word) {
    if funct3 % 4 == 1 then addr % 2 != 0 else if funct3 % 4 == 2 then addr % 4 != 0 else false
  }

  /** The combinational outputs of the execute stage, given its forwarded operands. */
  datatype Exec = Exec(
    alu: Word, pcSrc: bool, target: Word, csrRdata: Word, csrWdata: Word,
    exception: bool, excCode: int, trapVal: Word, timerInt: bool)

  function AluOf(e: IdEx, a: Word, b: Word): Word {
    Alu.Result(if e.ctrl.auipcSel then e.pc else a, if e.ctrl.aluSrc then e.imm else b, e.ctrl.aluControl)
  }

  function TargetOf(e: IdEx, alu: Word): Word {
    if e.ctrl.jalr then alu / 2 * 2 else Add(e.pc, e.imm)
  }

  datatype Fault = Fault(raised: bool, code: int, val: Word)

  /** Exception detection, highest priority first. */
  function FaultOf(e: IdEx, alu: Word): (f: Fault)
    ensures 0 <= f.code < 32
  {
    var isLoad := e.ctrl.resultSrc == RESULT_MEM;
    var misaligned := (e.ctrl.memWrite || isLoad) && Misaligned(e.funct3, alu);
    if e.ctrl.isIllegal then Fault(true, EXC_ILLEGAL_INSTR, e.instr)
    else if e.ctrl.isEcall then Fault(true, EXC_ECALL_M, 0)
    else if misaligned && e.ctrl.memWrite then Fault(true, EXC_STORE_MISALIGN, alu)
    else if misaligned && isLoad then Fault(true, EXC_LOAD_MISALIGN, alu)
    else Fault(false, 0, 0)
  }

  function Execute(e: IdEx, a: Word, b: Word, csrs: CsrFile.Csrs, mtip: bool): (x: Exec)
    ensures 0 <= x.excCode < 32
  {
    var alu := AluOf(e, a, b);
    var rdata := CsrFile.Read(csrs, Imm12Field(e.instr), mtip);
    var f := FaultOf(e, alu);
    Exec(alu,
      (e.ctrl.branch && TakeBranch(e.funct3, alu)) || e.ctrl.jalr,
      TargetOf(e, alu),
      rdata,
      CsrWdata(e.ctrl.csrOp, rdata, if e.ctrl.csrUseImm then e.rs1 else a),
      f.raised, f.code, f.val,
      e.valid && csrs.mie && csrs.mtie && mtip)
  }

  function ExecOf(c: Core, mtip: bool): Exec { Execute(c.de, SrcA(c), SrcB(c), c.csrs, mtip) }

  predicate TrapEn(x: Exec) { x.exception || x.timerInt }

  predicate EnterDebug(c: Core, debugReq: bool) { DebugFsm.Enter(c.dbg, debugReq, c.de.ctrl.isEbreak) }
  predicate ExitDebug(c: Core) { DebugFsm.Exit(c.dbg, c.de.ctrl.isDret) }

  // ---- hazard resolution ----

  predicate LoadStall(c: Core) {
    HazardUnit.LoadStall(c.de.ctrl.resultSrc == RESULT_MEM, c.de.rd,
      Rs1Used(c.fd.instr), Rs1Field(c.fd.instr), Rs2Used(c.fd.instr), Rs2Field(c.fd.instr))
  }

  function RedirectsOf(c: Core, x: Exec, debugReq: bool): HazardUnit.Redirects {
    HazardUnit.Redirects(x.pcSrc, JumpOf(c.fd.instr), EnterDebug(c, debugReq), ExitDebug(c),
      TrapEn(x), c.de.ctrl.isMret)
  }

  function PcNext(c: Core, x: Exec, r: HazardUnit.Redirects, haltAddr: Word): Word {
    if r.enterDebug then haltAddr
    else if r.exitDebug then c.dbg.dpc
    else if r.trapEn then c.csrs.mtvec
    else if r.mretEn then c.csrs.mepc
    else if r.pcSrcE then x.target
    else if r.jumpD then Add(c.fd.pc, ImmOf(c.fd.instr))
    else Add(c.pcf, 4)
  }

  // ---- next values of the pipeline registers ----

  function NextFd(c: Core, h: HazardUnit.Controls, instrF: Word): IfId {
    if h.flushD then c.fd.(instr := NOP_INSTR, valid := false)
    else if h.stallD then c.fd
    else IfId(instrF, c.pcf, Add(c.pcf, 4), true)
  }

  function DecodeRead(c: Core, a: Reg): Word {
    RegFile.Read(c.rf, a, c.mw.regWrite, c.mw.rd, ResultW(c.mw))
  }

  function NextDe(c: Core, h: HazardUnit.Controls): IdEx {
    if h.flushE then DE_BUBBLE
    else
      var i := c.fd.instr;
      IdEx(ControlOf(i), RdField(i), Rs1Field(i), Rs2Field(i), Funct3(i),
        DecodeRead(c, Rs1Field(i)), DecodeRead(c, Rs2Field(i)),
        c.fd.pc, c.fd.pcPlus4, ImmOf(i), i, c.fd.valid)
  }

  function NextEm(c: Core, x: Exec, h: HazardUnit.Controls): ExMem {
    if h.flushM then EM_BUBBLE
    else
      ExMem(c.de.ctrl.regWrite, c.de.ctrl.memWrite, c.de.ctrl.resultSrc, c.de.funct3,
        x.alu, SrcB(c), c.de.rd, c.de.pcPlus4, c.de.instr, x.csrRdata, c.de.valid)
  }

  function NextMw(m: ExMem, readData: Word): MemWb {
    MemWb(m.regWrite, m.resultSrc, m.alu, readData, m.rd, m.pcPlus4, m.instr,
      Wrap(m.pcPlus4 - 4), m.csrRdata, m.valid, m.memWrite, m.alu, m.wdata, m.funct3)
  }

  /** What the execute stage presents to the CSR file; nothing is committed on a halting edge. */
  function CsrPort(c: Core, x: Exec, enterDebug: bool): (p: CsrFile.Port)
    requires 0 <= x.excCode < 32
    ensures CsrFile.PortOk(p)
  {
    CsrFile.Port(Imm12Field(c.de.instr),
      c.de.ctrl.isCsr && !enterDebug && !TrapEn(x), x.csrWdata,
      TrapEn(x) && !enterDebug,
      CsrFile.Cause(!x.exception && x.timerInt,
        if x.exception then x.excCode else if x.timerInt then INT_MTIMER else 0, c.de.pc, x.trapVal),
      c.de.ctrl.isMret && !enterDebug)
  }

  /** One clock edge of the core. */
  function Next(c: Core, i: Inputs): Core {
    var x := ExecOf(c, i.mtip);
    var r := RedirectsOf(c, x, i.debugReq);
    var h := HazardUnit.Resolve(LoadStall(c), r);
    Core(if h.stallF then c.pcf else PcNext(c, x, r, i.haltAddr),
      NextFd(c, h, i.instrF), NextDe(c, h), NextEm(c, x, h), NextMw(c.em, i.readData),
      RegFile.Write(c.rf, c.mw.regWrite, c.mw.rd, ResultW(c.mw)),
      CsrFile.Next(c.csrs, CsrPort(c, x, r.enterDebug)),
      DebugFsm.Next(c.dbg, i.debugReq, c.de.ctrl.isEbreak, c.de.ctrl.isDret, c.de.pc))
  }

  class Pipe {
    var pcf: Word
    var fd: IfId
    var de: IdEx
    var em: ExMem
    var mw: MemWb
    const rf: RegFile.RegArray
    const csrs: CsrFile.CsrRegs
    const dbg: DebugFsm.DebugRegs

    ghost predicate Valid() { rf.Valid() }

    function State(): Core
      requires rf.rf.Length == 32
      reads this, rf.rf, csrs, dbg
    {
      Core(pcf, fd, de, em, mw, rf.State(), csrs.State(), dbg.State())
    }

    /** Power-up under reset; the register array comes up with whatever it holds. */
    constructor (init: RegFile.Regs)
      ensures Valid() && fresh(rf) && fresh(rf.rf) && fresh(csrs) && fresh(dbg)
      ensures State() == ResetState(init)
    {
      pcf, fd, de, em, mw := 0, FD_RESET, DE_BUBBLE, EM_BUBBLE, MW_RESET;
      rf := new RegFile.RegArray(init);
      csrs := new CsrFile.CsrRegs();
      dbg := new DebugFsm.DebugRegs();
    }

    method Clock(i: Inputs)
      requires Valid()
      modifies this`pcf, this`fd, this`de, this`em, this`mw, rf.rf, csrs, dbg
      ensures State() == Next(old(State()), i)
    {
      hide PcNext, NextFd, NextDe, NextEm, NextMw, Execute, CsrPort, LoadStall, RedirectsOf,
        HazardUnit.Resolve, ResultW, CsrFile.Next, DebugFsm.Next, RegFile.Write;
      // Settle the combinational logic on the current register values.
      var c := State();
      var x := ExecOf(c, i.mtip);
      var r := RedirectsOf(c, x, i.debugReq);
      var h := HazardUnit.Resolve(LoadStall(c), r);
      var resultW := ResultW(mw);
      var port := CsrPort(c, x, r.enterDebug);
      var ebreak, dret, pcE := de.ctrl.isEbreak, de.ctrl.isDret, de.pc;
      var nextFd, nextDe, nextEm := NextFd(c, h, i.instrF), NextDe(c, h), NextEm(c, x, h);
      // Then load every register at once.
      rf.Clock(mw.regWrite, mw.rd, resultW);
      csrs.Clock(port);
      dbg.Clock(i.debugReq, ebreak, dret, pcE);
      if !h.stallF {
        pcf := PcNext(c, x, r, i.haltAddr);
      }
      mw := NextMw(em, i.readData);
      fd, de, em := nextFd, nextDe, nextEm;
    }
  }
}
