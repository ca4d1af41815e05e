/** Combinational decode of every 32-bit word (rtl/controller.sv: controller, maindec and
    aludecoder) and immediate assembly (rtl/extend.sv). */
module Controller {
  import opened Words
  import opened Rv32iPkg

  datatype Main = Main(
    regWrite: bool, immSrc: ImmSrc, aluSrc: bool, memWrite: bool, resultSrc: TwoBits,
    branch: bool, aluOp: AluOp, jump: bool, jalr: bool, auipcSel: bool,
    rs1Used: bool, rs2Used: bool)

  const MAIN_NONE: Main :=
    Main(false, ImmI, false, false, RESULT_ALU, false, AddFamily, false, false, false, false, false)

  function MainDec(op: int): Main {
    if op == OP_LOAD then
      MAIN_NONE.(regWrite := true, immSrc := ImmI, aluSrc := true, resultSrc := RESULT_MEM, rs1Used := true)
    else if op == OP_STORE then
      MAIN_NONE.(immSrc := ImmS, aluSrc := true, memWrite := true, rs1Used := true, rs2Used := true)
    else if op == OP_RTYPE then
      MAIN_NONE.(regWrite := true, aluOp := RITypeFamily, rs1Used := true, rs2Used := true)
    else if op == OP_BRANCH then
      MAIN_NONE.(immSrc := ImmB, branch := true, aluOp := BranchFamily, rs1Used := true, rs2Used := true)
    else if op == OP_ITYPE then
      MAIN_NONE.(regWrite := true, immSrc := ImmI, aluSrc := true, aluOp := RITypeFamily, rs1Used := true)
    else if op == OP_JAL then
      MAIN_NONE.(regWrite := true, immSrc := ImmJ, jump := true, resultSrc := RESULT_PCPLUS4)
    else if op == OP_JALR then
      MAIN_NONE.(regWrite := true, immSrc := ImmI, aluSrc := true, jalr := true,
        resultSrc := RESULT_PCPLUS4, aluOp := AddFamily, rs1Used := true)
    else if op == OP_LUI then
      MAIN_NONE.(regWrite := true, immSrc := ImmU, aluSrc := true, aluOp := LuiPassThru)
    else if op == OP_AUIPC then
      MAIN_NONE.(regWrite := true, immSrc := ImmU, aluSrc := true, auipcSel := true, aluOp := AddFamily)
    else
      MAIN_NONE
  }

  function AluDec(opb5: bool, funct3: int, funct7b5: bool, aluOp: AluOp): AluCode {
    match aluOp
    case AddFamily => ALU_ADD
    case BranchFamily =>
      if funct3 == 0 || funct3 == 1 then ALU_SUB
      else if funct3 == 4 || funct3 == 5 then ALU_SLT
      else if funct3 == 6 || funct3 == 7 then ALU_SLTU
      else ALU_SUB
    case LuiPassThru => ALU_PASSB
    case RITypeFamily =>
      if funct3 == 0 then (if funct7b5 && opb5 then ALU_SUB else ALU_ADD)
      else if funct3 == 1 then ALU_SLL
      else if funct3 == 2 then ALU_SLT
      else if funct3 == 3 then ALU_SLTU
      else if funct3 == 4 then ALU_XOR
      else if funct3 == 5 then (if funct7b5 then ALU_SRA else ALU_SRL)
      else if funct3 == 6 then ALU_OR
      else if funct3 == 7 then ALU_AND
      else ALU_ADD
  }

  predicate KnownOpcode(op: int) {
    op == OP_LOAD || op == OP_STORE || op == OP_RTYPE || op == OP_BRANCH || op == OP_ITYPE ||
    op == OP_JAL || op == OP_JALR || op == OP_LUI || op == OP_AUIPC || op == OP_SYSTEM
  }

  // The SYSTEM overlay: funct3 decides whether bits 31:20 are an opcode or a CSR address.
  predicate IsPriv(w: Word) { Opcode(w) == OP_SYSTEM && Funct3(w) == 0 }
  predicate IsCsr(w: Word) { Opcode(w) == OP_SYSTEM && Funct3(w) != 0 && Funct3(w) != 4 }
  predicate IsEcall(w: Word) { IsPriv(w) && Imm12Field(w) == 0x000 }
  predicate IsEbreak(w: Word) { IsPriv(w) && Imm12Field(w) == 0x001 }
  predicate IsMret(w: Word) { IsPriv(w) && Imm12Field(w) == 0x302 }
  predicate IsDret(w: Word) { IsPriv(w) && Imm12Field(w) == 0x7B2 }
  predicate IsIllegal(w: Word) {
    !KnownOpcode(Opcode(w)) ||
    (Opcode(w) == OP_SYSTEM && !(IsEcall(w) || IsEbreak(w) || IsMret(w) || IsDret(w) || IsCsr(w)))
  }

  function ControlOf(w: Word): Ctrl {
    var m := MainDec(Opcode(w));
    Ctrl(m.regWrite || IsCsr(w), m.memWrite, m.branch, m.aluSrc, m.jalr, m.auipcSel,
      if IsCsr(w) then RESULT_CSR else m.resultSrc,
      AluDec(Opcode(w) / 32 % 2 == 1, Funct3(w), Bit30(w), m.aluOp),
      IsEbreak(w), IsDret(w), IsEcall(w), IsMret(w), IsCsr(w),
      Funct3(w) % 4, Funct3(w) >= 4, IsIllegal(w))
  }

  predicate JumpOf(w: Word) { MainDec(Opcode(w)).jump }
  predicate Rs1Used(w: Word) { if IsCsr(w) then Funct3(w) < 4 else MainDec(Opcode(w)).rs1Used }
  predicate Rs2Used(w: Word) { MainDec(Opcode(w)).rs2Used }

  // ---- extend.sv: concatenations of sign copies and instruction slices ----

  function Slice(w: Word, low: int, size: int): (s: int)
    requires low > 0 && size > 0
    ensures 0 <= s < size
  {
    w / low % size
  }

  function Extend(w: Word, src: ImmSrc): Word {
    var s := w / 0x8000_0000;
    match src
    case ImmI => s * 0xFFFF_F000 + Slice(w, 0x10_0000, 0x1000)
    case ImmS => s * 0xFFFF_F000 + Slice(w, 0x200_0000, 0x80) * 32 + Slice(w, 0x80, 32)
    case ImmB =>
      s * 0xFFFF_F000 + Slice(w, 0x80, 2) * 0x800 + Slice(w, 0x200_0000, 0x40) * 32 + Slice(w, 0x100, 16) * 2
    case ImmJ =>
      s * 0xFFF0_0000 + Slice(w, 0x1000, 0x100) * 0x1000 + Slice(w, 0x10_0000, 2) * 0x800 +
      Slice(w, 0x20_0000, 0x400) * 2
    case ImmU => w / 0x1000 * 0x1000
  }

  function ImmOf(w: Word): Word { Extend(w, MainDec(Opcode(w)).immSrc) }

  /** No CSR instruction is also decoded as one of the privileged instructions, whatever its
      address, and no word is decoded as two of them. */
  lemma SystemDecodeExclusive(w: Word)
    ensures var c := ControlOf(w);
            && (c.isCsr ==> !c.isEcall && !c.isEbreak && !c.isMret && !c.isDret && !c.isIllegal)
            && B2W(c.isEcall) + B2W(c.isEbreak) + B2W(c.isMret) + B2W(c.isDret) + B2W(c.isIllegal) <= 1
            && (c.isEcall || c.isEbreak || c.isMret || c.isDret || c.isIllegal ==>
                  !c.regWrite && !c.memWrite && !c.branch && !c.jalr && c.resultSrc == RESULT_ALU)
  {
    assert IsEcall(w) || IsEbreak(w) || IsMret(w) || IsDret(w) ==> MainDec(Opcode(w)) == MAIN_NONE;
    assert IsIllegal(w) ==> MainDec(Opcode(w)) == MAIN_NONE && !IsCsr(w);
  }
}
