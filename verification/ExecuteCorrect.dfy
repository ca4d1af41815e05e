/** Decode, immediates, ALU, branch compare and exception detection of the execute stage against
    the sequential machine, for every one of the 2^32 instruction words. */
module ExecuteCorrect {
  import opened Words
  import opened Rv32iPkg
  import opened Controller
  import Alu
  import CsrFile
  import Datapath
  import Isa
  import MemBus
  import MemoryCorrect

  // ---- immediates ----

  lemma ImmediateI(w: Word)
    ensures Extend(w, ImmSrc.ImmI) == Wrap(Isa.ImmI(w))
  {
    var u := w / 0x10_0000;
    assert w / 0x8000_0000 == if u < 0x800 then 0 else 1;
    Alu.WrapOnce(Isa.ImmI(w));
  }

  lemma ImmediateS(w: Word)
    ensures Extend(w, ImmSrc.ImmS) == Wrap(Isa.ImmS(w))
  {
    var u := w / 0x200_0000;
    assert w / 0x8000_0000 == if u < 0x40 then 0 else 1;
    Alu.WrapOnce(Isa.ImmS(w));
  }

  lemma ImmediateB(w: Word)
    ensures Extend(w, ImmSrc.ImmB) == Wrap(Isa.ImmB(w))
  {
    var s, b7, mid, low := w / 0x8000_0000, w / 0x80 % 2, w / 0x200_0000 % 64, w / 0x100 % 16;
    assert s == 0 || s == 1;
    Alu.WrapOnce(Isa.ImmB(w));
  }

  lemma ImmediateJ(w: Word)
    ensures Extend(w, ImmSrc.ImmJ) == Wrap(Isa.ImmJ(w))
  {
    var s := w / 0x8000_0000;
    assert s == 0 || s == 1;
    Alu.WrapOnce(Isa.ImmJ(w));
  }

  lemma ImmediateU(w: Word)
    ensures Extend(w, ImmSrc.ImmU) == Wrap(Isa.ImmU(w) * 0x1000)
  {
    Alu.WrapOnce(Isa.ImmU(w) * 0x1000);
  }

  // ---- arithmetic ----

  lemma ComputeCorrect(w: Word, a: Word, b: Word, isOp: bool)
    ensures var code := AluDec(isOp, Funct3(w), Bit30(w), RITypeFamily);
            Alu.Result(a, b, code) == Isa.Compute(Isa.KindOf(Funct3(w), Bit30(w), isOp), a, b)
  {
    hide Signed, Pow2, Bitwise, Alu.Sum, Alu.ShiftRightArith, Alu.Overflow;
    Alu.AdderSharing(a, b);
    Alu.ArithmeticShift(a, b % 32);
    WrapNoop(Alu.ShiftRight(a, b % 32));
  }

  lemma WrapZero(x: int)
    requires -0x1_0000_0000 < x < 0x1_0000_0000
    ensures Wrap(x) == 0 <==> x == 0
  {
    Alu.WrapOnce(x);
  }

  lemma BranchCorrect(w: Word, a: Word, b: Word)
    ensures Datapath.TakeBranch(Funct3(w), Alu.Result(a, b, AluDec(true, Funct3(w), Bit30(w), BranchFamily))) ==
            Isa.Holds(Isa.CondOf(Funct3(w)), a, b)
  {
    hide Signed, Pow2, Bitwise, Alu.Sum, Alu.ShiftRightArith, Alu.Overflow, Wrap;
    Alu.AdderSharing(a, b);
    WrapZero(a - b);
  }

  // ---- the execute stage ----

  /** The ID/EX register holds what Decode makes of the word `w`. */
  predicate Holds(e: Datapath.IdEx, w: Word) {
    && e.ctrl == ControlOf(w) && e.instr == w && e.imm == ImmOf(w) && e.pcPlus4 == Add(e.pc, 4)
    && e.rd == RdField(w) && e.rs1 == Rs1Field(w) && e.rs2 == Rs2Field(w) && e.funct3 == Funct3(w)
  }

  /** The operands an instruction really reads are its architectural registers; the values on the
      unused operand ports are arbitrary. */
  predicate Operands(s: Isa.Arch, w: Word, a: Word, b: Word) {
    && (Rs1Used(w) ==> a == Isa.Reg(s, Rs1Field(w)))
    && (Rs2Used(w) ==> b == Isa.Reg(s, Rs2Field(w)))
  }

  lemma WrapAddRight(a: int, x: int)
    ensures Wrap(a + Wrap(x)) == Wrap(a + x)
  {
    WrapAddLeft(x, a);
  }

  lemma AluAdds(a: Word, b: Word)
    ensures Alu.Result(a, b, ALU_ADD) == Wrap(a + b)
  {
    Alu.AdderSharing(a, b);
  }

  lemma PassB(a: Word, b: Word)
    ensures Alu.Result(a, b, ALU_PASSB) == b
  {}

  lemma AddressCorrect(e: Datapath.IdEx, w: Word, s: Isa.Arch, a: Word, b: Word)
    requires Holds(e, w) && Operands(s, w, a, b)
    ensures Opcode(w) == OP_LOAD || Opcode(w) == OP_JALR ==>
              Datapath.AluOf(e, a, b) == Isa.Address(s, Rs1Field(w), Isa.ImmI(w))
    ensures Opcode(w) == OP_STORE ==> Datapath.AluOf(e, a, b) == Isa.Address(s, Rs1Field(w), Isa.ImmS(w))
  {
    hide Alu.Result, Wrap, Extend, Isa.ImmI, Isa.ImmS;
    AluAdds(a, e.imm);
    ImmediateI(w);
    ImmediateS(w);
    WrapAddRight(a, Isa.ImmI(w));
    WrapAddRight(a, Isa.ImmS(w));
  }

  lemma MisalignmentCorrect(f3: int, addr: Word)
    requires 0 <= f3 < 8
    ensures Datapath.Misaligned(f3, addr) == !Isa.Aligned(Isa.LoadWidth(f3), addr)
    ensures Datapath.Misaligned(f3, addr) == !Isa.Aligned(Isa.StoreWidth(f3), addr)
  {}

  /** The execute stage raises an exception on exactly the instructions that architecturally fault,
      with the architectural code and value. */
  lemma ExceptionCorrect(e: Datapath.IdEx, w: Word, s: Isa.Arch, a: Word, b: Word, mtip: bool)
    requires Holds(e, w) && Operands(s, w, a, b)
    ensures var x := Datapath.Execute(e, a, b, s.csrs, mtip);
            if x.exception then Isa.ExceptionOf(s, w) == Isa.Some(Isa.Exception(x.excCode, x.trapVal))
            else Isa.ExceptionOf(s, w).None?
  {
    hide Datapath.AluOf, Isa.Address, Isa.ImmI, Isa.ImmS, Isa.ImmB, Isa.ImmJ, ImmOf, CsrFile.Read,
      Datapath.CsrWdata, AluDec, Datapath.Misaligned, Isa.Aligned;
    AddressCorrect(e, w, s, a, b);
    MisalignmentCorrect(Funct3(w), Datapath.AluOf(e, a, b));
  }

  /** What the writeback multiplexer will select for the instruction now in execute, given the data
      side as the memory stage will find it. */
  function Value(e: Datapath.IdEx, x: Datapath.Exec, mem: MemBus.Mem): Word {
    Datapath.Mux4(x.alu, MemBus.Read(mem, x.alu, e.funct3), e.pcPlus4, x.csrRdata, e.ctrl.resultSrc)
  }

  lemma LoadValueCorrect(e: Datapath.IdEx, w: Word, s: Isa.Arch, a: Word, b: Word)
    requires Holds(e, w) && Operands(s, w, a, b) && Opcode(w) == OP_LOAD && Isa.ExceptionOf(s, w).None?
    ensures MemBus.Read(s.mem, Datapath.AluOf(e, a, b), e.funct3) ==
            Isa.ReadMem(s.mem, Isa.LoadWidth(Funct3(w)), Funct3(w) < 3, Isa.Address(s, Rs1Field(w), Isa.ImmI(w)))
  {
    hide Datapath.AluOf, Isa.Address, Isa.ImmI, Isa.Aligned, Isa.ReadMem, MemBus.Read, Isa.LoadWidth;
    AddressCorrect(e, w, s, a, b);
    assert Isa.Decode(w) == Isa.Load(Isa.LoadWidth(Funct3(w)), Funct3(w) < 3, RdField(w), Rs1Field(w), Isa.ImmI(w));
    MemoryCorrect.LoadCorrect(s.mem, Datapath.AluOf(e, a, b), Funct3(w));
  }

  lemma AluValueCorrect(e: Datapath.IdEx, w: Word, s: Isa.Arch, a: Word, b: Word, mtip: bool)
    requires Holds(e, w) && Operands(s, w, a, b) && e.pc == s.pc
    requires Opcode(w) in {OP_RTYPE, OP_ITYPE, OP_LUI, OP_AUIPC}
    ensures Isa.WriteOf(s, w, mtip) == Isa.Some(Isa.RegWrite(RdField(w), Datapath.AluOf(e, a, b)))
  {
    hide Alu.Result, Wrap, Extend, Isa.ImmI, Isa.ImmU, Isa.Compute, Isa.KindOf;
    if Opcode(w) == OP_RTYPE {
      ComputeCorrect(w, a, b, true);
    } else if Opcode(w) == OP_ITYPE {
      ComputeCorrect(w, a, e.imm, false);
      ImmediateI(w);
    } else {
      ImmediateU(w);
      if Opcode(w) == OP_LUI {
        PassB(a, e.imm);
      } else {
        AluAdds(e.pc, e.imm);
        WrapAddRight(e.pc, Isa.ImmU(w) * 0x1000);
      }
    }
  }

  /** The register write that leaves the execute stage is the architectural one. */
  lemma WriteCorrect(e: Datapath.IdEx, w: Word, s: Isa.Arch, a: Word, b: Word, mtip: bool)
    requires Holds(e, w) && Operands(s, w, a, b) && e.pc == s.pc && Isa.ExceptionOf(s, w).None?
    ensures var x := Datapath.Execute(e, a, b, s.csrs, mtip);
            Isa.WriteOf(s, w, mtip) ==
            if e.ctrl.regWrite then Isa.Some(Isa.RegWrite(e.rd, Value(e, x, s.mem))) else Isa.None
  {
    hide Datapath.AluOf, Isa.Address, Isa.ImmI, Isa.ImmU, Isa.Compute, Isa.KindOf, AluDec, ImmOf,
      Isa.ReadMem, MemBus.Read, CsrFile.Read, Datapath.CsrWdata, Isa.ExceptionOf, Datapath.Misaligned;
    if Opcode(w) == OP_LOAD {
      LoadValueCorrect(e, w, s, a, b);
    } else if Opcode(w) in {OP_RTYPE, OP_ITYPE, OP_LUI, OP_AUIPC} {
      AluValueCorrect(e, w, s, a, b, mtip);
    }
  }

  /** The store that leaves the execute stage is the architectural one. */
  lemma StoreCorrect(e: Datapath.IdEx, w: Word, s: Isa.Arch, a: Word, b: Word)
    requires Holds(e, w) && Operands(s, w, a, b)
    ensures Isa.StoreOf(s, w) ==
            if e.ctrl.memWrite then Isa.Some(Isa.StoreReq(Isa.StoreWidth(e.funct3), Datapath.AluOf(e, a, b), b))
            else Isa.None
  {
    hide Datapath.AluOf, Isa.Address, Isa.ImmS, AluDec, ImmOf, Isa.StoreWidth;
    AddressCorrect(e, w, s, a, b);
  }

  /** Branch targets, conditions and indirect jumps are the architectural ones. */
  lemma NextPcCorrect(e: Datapath.IdEx, w: Word, s: Isa.Arch, a: Word, b: Word, mtip: bool)
    requires Holds(e, w) && Operands(s, w, a, b) && e.pc == s.pc
    ensures var x := Datapath.Execute(e, a, b, s.csrs, mtip);
            Isa.NextPc(s, w) ==
            if e.ctrl.isDret && s.dbg.parked then s.dbg.dpc
            else if e.ctrl.isMret then s.csrs.mepc
            else if x.pcSrc then x.target
            else if JumpOf(w) then Add(e.pc, e.imm)
            else Add(e.pc, 4)
  {
    hide Isa.ImmI, Isa.ImmB, Isa.ImmJ, Isa.CondOf, Isa.Holds, AluDec, Extend, Wrap,
      CsrFile.Read, Datapath.CsrWdata, Datapath.Misaligned, Datapath.TakeBranch, Alu.Result;
    if Opcode(w) == OP_JALR {
      AddressCorrect(e, w, s, a, b);
    } else if Opcode(w) == OP_JAL {
      ImmediateJ(w);
      WrapAddRight(e.pc, Isa.ImmJ(w));
    } else if Opcode(w) == OP_BRANCH {
      ImmediateB(w);
      WrapAddRight(e.pc, Isa.ImmB(w));
      BranchCorrect(w, a, b);
    }
  }

  /** The registers an instruction reads. */
  predicate Reads(d: Isa.Instr, r: Reg) {
    match d
    case Jalr(_, rs1, _) => r == rs1
    case Branch(_, rs1, rs2, _) => r == rs1 || r == rs2
    case Load(_, _, _, rs1, _) => r == rs1
    case Store(_, rs1, rs2, _) => r == rs1 || r == rs2
    case OpImm(_, _, rs1, _) => r == rs1
    case Op(_, _, rs1, rs2) => r == rs1 || r == rs2
    case CsrAccess(_, _, _, source) => source == Isa.FromReg(r)
    case _ => false
  }

  /** Decode's used-register flags are the instruction's own. */
  lemma ReadsCorrect(w: Word, r: Reg)
    ensures Reads(Isa.Decode(w), r) <==> (Rs1Used(w) && Rs1Field(w) == r) || (Rs2Used(w) && Rs2Field(w) == r)
  {
    hide Isa.ImmI, Isa.ImmS, Isa.ImmB, Isa.ImmJ, Isa.ImmU, Isa.KindOf, Isa.CondOf, Isa.LoadWidth,
      Isa.StoreWidth;
  }

  /** The instruction is a conditional branch whose condition holds, or a JALR. */
  predicate Jumps(s: Isa.Arch, w: Word) {
    match Isa.Decode(w)
    case Jalr(_, _, _) => true
    case Branch(c, rs1, rs2, _) => Isa.Holds(c, Isa.Reg(s, rs1), Isa.Reg(s, rs2))
    case _ => false
  }

  lemma JumpKinds(w: Word)
    ensures var k, d := ControlOf(w), Isa.Decode(w);
            && k.branch == d.Branch? && k.jalr == d.Jalr?
            && (d.Branch? ==>
                  && d.cond == Isa.CondOf(Funct3(w)) && d.rs1 == Rs1Field(w) && d.rs2 == Rs2Field(w)
                  && Rs1Used(w) && Rs2Used(w) && !k.aluSrc && !k.auipcSel
                  && k.aluControl == AluDec(true, Funct3(w), Bit30(w), BranchFamily))
  {
    hide Isa.ImmI, Isa.ImmS, Isa.ImmB, Isa.ImmJ, Isa.ImmU, Isa.KindOf, Isa.CondOf, Isa.LoadWidth,
      Isa.StoreWidth, AluDec, Extend;
  }

  lemma JumpsCorrect(e: Datapath.IdEx, w: Word, s: Isa.Arch, a: Word, b: Word, mtip: bool)
    requires Holds(e, w) && Operands(s, w, a, b)
    ensures Datapath.Execute(e, a, b, s.csrs, mtip).pcSrc == Jumps(s, w)
  {
    hide Isa.Decode, ControlOf, Rs1Used, Rs2Used, ImmOf, Isa.CondOf, Isa.Holds, AluDec, CsrFile.Read,
      Datapath.CsrWdata, Datapath.Misaligned, Datapath.TakeBranch, Alu.Result, Rs1Field, Rs2Field, Funct3,
      RdField, Bit30, Imm12Field;
    JumpKinds(w);
    BranchCorrect(w, a, b);
  }

  lemma KindsOfWord(w: Word)
    ensures var k, d := ControlOf(w), Isa.Decode(w);
            && (k.resultSrc == RESULT_MEM) == d.Load? && JumpOf(w) == d.Jal?
            && k.isMret == d.Mret? && k.isDret == d.Dret? && k.isEbreak == d.Ebreak?
            && (d.Load? ==> d.rd == RdField(w))
  {
    hide Isa.ImmI, Isa.ImmS, Isa.ImmB, Isa.ImmJ, Isa.ImmU, Isa.KindOf, Isa.CondOf, Isa.LoadWidth,
      Isa.StoreWidth, AluDec, Extend;
  }

  /** The SYSTEM overlay of the control bundle, instruction by instruction. */
  lemma SystemDecode(w: Word)
    ensures var k, d := ControlOf(w), Isa.Decode(w);
            && k.isMret == d.Mret? && k.isCsr == d.CsrAccess?
            && (d.CsrAccess? ==>
                  && d.csr == Imm12Field(w)
                  && d.csrKind ==
                     (if k.csrOp == 1 then Isa.Swap else if k.csrOp == 2 then Isa.SetBits else Isa.ClearBits)
                  && k.csrOp != 0
                  && d.source == (if k.csrUseImm then Isa.FromImm(Rs1Field(w)) else Isa.FromReg(Rs1Field(w)))
                  && (!k.csrUseImm ==> Rs1Used(w)))
  {
    hide ImmOf, AluDec, RdField, Rs2Field, Funct7Field;
  }

  /** CSR instructions and mret leave the CSR file as the architecture says. */
  lemma CsrCorrect(e: Datapath.IdEx, w: Word, s: Isa.Arch, a: Word, b: Word, mtip: bool)
    requires Holds(e, w) && Operands(s, w, a, b)
    ensures var x := Datapath.Execute(e, a, b, s.csrs, mtip);
            Isa.NextCsrs(s, w, mtip) ==
            if e.ctrl.isMret then CsrFile.Returned(s.csrs)
            else if e.ctrl.isCsr then CsrFile.Written(s.csrs, Imm12Field(w), x.csrWdata)
            else s.csrs
  {
    hide Datapath.AluOf, ControlOf, Isa.Decode, Rs1Used, Rs2Used, ImmOf, CsrFile.Read, Bitwise,
      CsrFile.Written, Datapath.Misaligned, Imm12Field, Rs1Field, Rs2Field, RdField, Funct3, Wrap;
    SystemDecode(w);
    WrapNoop(Rs1Field(w));
  }
}
