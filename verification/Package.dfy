/** Named constants and the ID/EX control bundle (rtl/rv32i_pkg.sv), together with the
    bit-field accessors of an instruction word that every decoder shares. */
module Rv32iPkg {
  import opened Words

  const OP_LOAD := 0x03
  const OP_STORE := 0x23
  const OP_RTYPE := 0x33
  const OP_BRANCH := 0x63
  const OP_ITYPE := 0x13
  const OP_JAL := 0x6F
  const OP_JALR := 0x67
  const OP_LUI := 0x37
  const OP_AUIPC := 0x17
  const OP_SYSTEM := 0x73

  // ALU control codes; among those that use the adder, bit 0 means "subtract".
  const ALU_ADD := 0
  const ALU_SUB := 1
  const ALU_AND := 2
  const ALU_OR := 3
  const ALU_XOR := 4
  const ALU_SLT := 5
  const ALU_SLL := 6
  const ALU_SRL := 7
  const ALU_SRA := 8
  const ALU_SLTU := 9
  const ALU_PASSB := 10

  datatype AluOp = AddFamily | BranchFamily | RITypeFamily | LuiPassThru

  datatype ImmSrc = ImmI | ImmS | ImmB | ImmJ | ImmU

  const RESULT_ALU := 0
  const RESULT_MEM := 1
  const RESULT_PCPLUS4 := 2
  const RESULT_CSR := 3

  const FWD_NONE := 0
  const FWD_WB := 1
  const FWD_MEM := 2

  // The sentinel write that ends a generated program, agreed between generator and checker.
  const COMPLETION_GPR: Reg := 31
  const COMPLETION_VALUE: Word := 0x7FF

  const NOP_INSTR: Word := 0x0000_0013

  const CSR_MSTATUS := 0x300
  const CSR_MIE := 0x304
  const CSR_MTVEC := 0x305
  const CSR_MSCRATCH := 0x340
  const CSR_MEPC := 0x341
  const CSR_MCAUSE := 0x342
  const CSR_MTVAL := 0x343
  const CSR_MIP := 0x344
  const CSR_MHARTID := 0xF14

  const EXC_ILLEGAL_INSTR := 2
  const EXC_LOAD_MISALIGN := 4
  const EXC_STORE_MISALIGN := 6
  const EXC_ECALL_M := 11
  const INT_MTIMER := 7

  const CLINT_BASE: Word := 0x0002_0000
  const UART_BASE: Word := 0x0003_0000

  type TwoBits = c: int | 0 <= c < 4
  type AluCode = c: int | 0 <= c < 16

  datatype Ctrl = Ctrl(
    regWrite: bool, memWrite: bool, branch: bool, aluSrc: bool, jalr: bool, auipcSel: bool,
    resultSrc: TwoBits, aluControl: AluCode,
    isEbreak: bool, isDret: bool, isEcall: bool, isMret: bool, isCsr: bool,
    csrOp: TwoBits, csrUseImm: bool, isIllegal: bool)

  const CTRL_BUBBLE: Ctrl :=
    Ctrl(false, false, false, false, false, false, RESULT_ALU, ALU_ADD,
         false, false, false, false, false, 0, false, false)

  // ---- instruction bit fields ----

  function Opcode(w: Word): (f: int) ensures 0 <= f < 0x80 { w % 0x80 }
  function RdField(w: Word): Reg { w / 0x80 % 32 }
  function Funct3(w: Word): (f: int) ensures 0 <= f < 8 { w / 0x1000 % 8 }
  function Rs1Field(w: Word): Reg { w / 0x8000 % 32 }
  function Rs2Field(w: Word): Reg { w / 0x10_0000 % 32 }
  function Imm12Field(w: Word): (f: int) ensures 0 <= f < 0x1000 { w / 0x10_0000 }
  function Funct7Field(w: Word): (f: int) ensures 0 <= f < 0x80 { w / 0x200_0000 }
  function Bit30(w: Word): bool { w / 0x4000_0000 % 2 == 1 }
}
