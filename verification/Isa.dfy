/** The sequential machine: one instruction at a time, written from the RISC-V manuals (RV32I,
    Zicsr, machine-mode traps, external debug) over integers and little-endian bytes, independent
    of the control bundle. Where the manuals leave a choice, or the core departs from them, this follows
    what the core implements and says so. */
module Isa {
  import opened Words
  import opened Rv32iPkg
  import Clint
  import CsrFile
  import DebugFsm
  import Dmem
  import MemBus
  import RegFile
  import UartTx

  datatype Option<+T> = None | Some(value: T)

  // ---- instructions ----

  datatype Kind = AddK | SubK | SllK | SltK | SltuK | XorK | SrlK | SraK | OrK | AndK

  /** `Never` stands for the two reserved branch conditions, which are not taken. */
  datatype Cond = Eq | Ne | Lt | Ge | Ltu | Geu | Never

  /** `Reserved` widths access the aligned word around the address, under the given alignment. */
  datatype Width = W8 | W16 | W32 | Reserved(align: int)

  datatype CsrSource = FromReg(rs1: Reg) | FromImm(uimm: int)

  datatype CsrKind = Swap | SetBits | ClearBits

  datatype Instr =
    | Lui(rd: Reg, upper: int)
    | Auipc(rd: Reg, upper: int)
    | Jal(rd: Reg, off: int)
    | Jalr(rd: Reg, rs1: Reg, off: int)
    | Branch(cond: Cond, rs1: Reg, rs2: Reg, off: int)
    | Load(width: Width, signExtend: bool, rd: Reg, rs1: Reg, off: int)
    | Store(width: Width, rs1: Reg, rs2: Reg, off: int)
    | OpImm(kind: Kind, rd: Reg, rs1: Reg, imm: int)
    | Op(kind: Kind, rd: Reg, rs1: Reg, rs2: Reg)
    | CsrAccess(csrKind: CsrKind, rd: Reg, csr: int, source: CsrSource)
    | Ecall | Ebreak | Mret | Dret
    | Illegal

  // Immediates by place value: the top bit of each format weighs negative.
  function ImmI(w: Word): int { SignedField(Imm12Field(w), 0x800) }
  function ImmS(w: Word): int { SignedField(Funct7Field(w) * 32 + RdField(w), 0x800) }
  function ImmB(w: Word): int {
    w / 0x8000_0000 * -0x1000 + w / 0x80 % 2 * 0x800 + w / 0x200_0000 % 64 * 32 + w / 0x100 % 16 * 2
  }
  function ImmJ(w: Word): int {
    w / 0x8000_0000 * -0x10_0000 + w / 0x1000 % 256 * 0x1000 + w / 0x10_0000 % 2 * 0x800 + w / 0x20_0000 % 1024 * 2
  }
  function ImmU(w: Word): int { w / 0x1000 }

  function LoadWidth(f3: int): Width {
    if f3 == 0 || f3 == 4 then W8 else if f3 == 1 || f3 == 5 then W16 else if f3 == 2 then W32
    else if f3 == 6 then Reserved(4) else Reserved(1)
  }

  function StoreWidth(f3: int): Width {
    if f3 == 0 then W8 else if f3 == 1 then W16 else if f3 == 2 then W32
    else if f3 == 5 then Reserved(2) else if f3 == 6 then Reserved(4) else Reserved(1)
  }

  function CondOf(f3: int): Cond {
    if f3 == 0 then Eq else if f3 == 1 then Ne else if f3 == 4 then Lt else if f3 == 5 then Ge
    else if f3 == 6 then Ltu else if f3 == 7 then Geu else Never
  }

  function KindOf(f3: int, alternate: bool, isOp: bool): Kind {
    if f3 == 0 then (if alternate && isOp then SubK else AddK)
    else if f3 == 1 then SllK
    else if f3 == 2 then SltK
    else if f3 == 3 then SltuK
    else if f3 == 4 then XorK
    else if f3 == 5 then (if alternate then SraK else SrlK)
    else if f3 == 6 then OrK
    else AndK
  }

  /** FENCE and reserved encodings are as the core has them: FENCE and every other unknown opcode is illegal, the
      funct3 of JALR and all of funct7 but its alternate-operation bit are ignored, and that bit also
      selects the alternate right shift and nothing else among the immediate operations. */
  function Decode(w: Word): Instr {
    var op, rd, f3, rs1, rs2 := Opcode(w), RdField(w), Funct3(w), Rs1Field(w), Rs2Field(w);
    if op == 0x37 then Lui(rd, ImmU(w))
    else if op == 0x17 then Auipc(rd, ImmU(w))
    else if op == 0x6F then Jal(rd, ImmJ(w))
    else if op == 0x67 then Jalr(rd, rs1, ImmI(w))
    else if op == 0x63 then Branch(CondOf(f3), rs1, rs2, ImmB(w))
    else if op == 0x03 then Load(LoadWidth(f3), f3 < 3, rd, rs1, ImmI(w))
    else if op == 0x23 then Store(StoreWidth(f3), rs1, rs2, ImmS(w))
    else if op == 0x13 then OpImm(KindOf(f3, Bit30(w), false), rd, rs1, ImmI(w))
    else if op == 0x33 then Op(KindOf(f3, Bit30(w), true), rd, rs1, rs2)
    else if op == 0x73 then DecodeSystem(w)
    else Illegal
  }

  /** The fields that the privileged instructions should hold at zero are ignored, and every CSR address
      is accepted: both are choices of the core. */
  function DecodeSystem(w: Word): Instr {
    var rd, f3, rs1, imm12 := RdField(w), Funct3(w), Rs1Field(w), Imm12Field(w);
    if f3 == 0 then
      if imm12 == 0x000 then Ecall
      else if imm12 == 0x001 then Ebreak
      else if imm12 == 0x302 then Mret
      else if imm12 == 0x7B2 then Dret
      else Illegal
    else if f3 == 4 then Illegal
    else
      CsrAccess(if f3 == 1 || f3 == 5 then Swap else if f3 == 2 || f3 == 6 then SetBits else ClearBits,
        rd, imm12, if f3 < 4 then FromReg(rs1) else FromImm(rs1))
  }

  // ---- arithmetic ----

  function Compute(k: Kind, a: Word, b: Word): Word {
    match k
    case AddK => Wrap(a + b)
    case SubK => Wrap(a - b)
    case SllK => Wrap(a * Pow2(b % 32))
    case SltK => B2W(Signed(a) < Signed(b))
    case SltuK => B2W(a < b)
    case XorK => Bitwise(XorGate, a, b)
    case SrlK => Wrap(a / Pow2(b % 32))
    case SraK => Wrap(Signed(a) / Pow2(b % 32))
    case OrK => Bitwise(OrGate, a, b)
    case AndK => Bitwise(AndGate, a, b)
  }

  predicate Holds(c: Cond, a: Word, b: Word) {
    match c
    case Eq => a == b
    case Ne => a != b
    case Lt => Signed(a) < Signed(b)
    case Ge => Signed(a) >= Signed(b)
    case Ltu => a < b
    case Geu => a >= b
    case Never => false
  }

  // ---- memory: little-endian bytes at addresses modulo the RAM size, plus the two devices ----

  /** The `n` bytes from address `a` up, as a number. */
  function LoadBytes(m: Dmem.Ram, a: nat, n: nat): (v: nat)
    ensures v < Pow2(8 * n)
    decreases n
  {
    if n == 0 then 0 else
      assert Pow2(8 * n) == Pow2(8 * (n - 1)) * 256 by {
        Pow2Values();
        Pow2Add(8 * (n - 1), 8);
      }
      var b: int := m[a % |m|];
      b + 256 * LoadBytes(m, a + 1, n - 1)
  }

  /** The RAM after the `n` low bytes of `v` are stored from address `a` up. */
  function StoreBytes(m: Dmem.Ram, a: nat, v: nat, n: nat): (r: Dmem.Ram)
    ensures |r| == |m|
    decreases n
  {
    if n == 0 then m else StoreBytes(m[a % |m| := v % 256], a + 1, v / 256, n - 1)
  }

  function Size(w: Width): nat {
    match w
    case W8 => 1
    case W16 => 2
    case _ => 4
  }

  function Start(w: Width, a: Word): Word { if w.Reserved? then a / 4 * 4 else a }

  predicate Aligned(w: Width, a: Word) {
    match w
    case W8 => true
    case W16 => a % 2 == 0
    case W32 => a % 4 == 0
    case Reserved(n) => if n == 2 then a % 2 == 0 else if n == 4 then a % 4 == 0 else true
  }

  /** The word a load makes of the bytes it read. */
  function Extended(w: Width, signExtend: bool, v: nat): Word {
    if signExtend && w.W8? then Wrap(SignedField(v, 0x80))
    else if signExtend && w.W16? then Wrap(SignedField(v, 0x8000))
    else Wrap(v)
  }

  function ReadRam(m: Dmem.Ram, w: Width, signExtend: bool, a: Word): Word {
    Extended(w, signExtend, LoadBytes(m, Start(w, a), Size(w)))
  }

  function ReadMem(m: MemBus.Mem, w: Width, signExtend: bool, a: Word): Word {
    if MemBus.IsClint(a) then Clint.Read(m.timer, a)
    else if MemBus.IsUart(a) then UartTx.Read(m.uart, a)
    else ReadRam(m.ram, w, signExtend, a)
  }

  datatype StoreReq = StoreReq(width: Width, addr: Word, data: Word)

  /** One cycle of the data side: the timer counts, and at most one store lands. */
  function StepMem(m: MemBus.Mem, s: Option<StoreReq>): MemBus.Mem {
    match s
    case None => MemBus.Mem(m.ram, m.timer.(mtime := Wrap(m.timer.mtime + 1)), m.uart.(txValid := false))
    case Some(r) =>
      if MemBus.IsClint(r.addr) then
        MemBus.Mem(m.ram,
          if r.addr == CLINT_BASE then m.timer.(mtime := r.data)
          else Clint.Timer(Wrap(m.timer.mtime + 1), if r.addr == CLINT_BASE + 4 then r.data else m.timer.mtimecmp),
          m.uart.(txValid := false))
      else if MemBus.IsUart(r.addr) then
        MemBus.Mem(m.ram, m.timer.(mtime := Wrap(m.timer.mtime + 1)),
          if r.addr == UART_BASE then UartTx.Uart(r.data % 256, true) else m.uart.(txValid := false))
      else
        MemBus.Mem(StoreBytes(m.ram, Start(r.width, r.addr), r.data, Size(r.width)),
          m.timer.(mtime := Wrap(m.timer.mtime + 1)), m.uart.(txValid := false))
  }

  // ---- architectural state ----

  /** Entry 0 of `regs` is zero in every state the machine reaches. */
  datatype Arch = Arch(pc: Word, regs: RegFile.Regs, csrs: CsrFile.Csrs, dbg: DebugFsm.Debug, mem: MemBus.Mem)

  /** Per-step inputs: the timer interrupt line and the external debug request. */
  datatype Env = Env(mtip: bool, debugReq: bool, haltAddr: Word)

  datatype RegWrite = RegWrite(rd: Reg, value: Word)

  function SetReg(regs: RegFile.Regs, w: Option<RegWrite>): RegFile.Regs {
    if w.Some? && w.value.rd != 0 then regs[w.value.rd := w.value.value] else regs
  }

  function Reg(a: Arch, r: Reg): Word { RegFile.Get(a.regs, r) }

  function Address(a: Arch, rs1: Reg, off: int): Word { Wrap(Reg(a, rs1) + off) }

  datatype Exception = Exception(code: int, val: Word)

  /** Jumps to addresses that are not multiples of four raise nothing, on this core: the instruction
      at the target runs, under that address. */
  function ExceptionOf(a: Arch, w: Word): (x: Option<Exception>)
    ensures x.Some? ==> 0 <= x.value.code < 32
  {
    match Decode(w)
    case Illegal => Some(Exception(EXC_ILLEGAL_INSTR, w))
    case Ecall => Some(Exception(EXC_ECALL_M, 0))
    case Store(width, rs1, _, off) =>
      var addr := Address(a, rs1, off);
      if Aligned(width, addr) then None else Some(Exception(EXC_STORE_MISALIGN, addr))
    case Load(width, _, _, rs1, off) =>
      var addr := Address(a, rs1, off);
      if Aligned(width, addr) then None else Some(Exception(EXC_LOAD_MISALIGN, addr))
    case _ => None
  }

  function CsrOperand(a: Arch, s: CsrSource): Word {
    match s
    case FromReg(r) => Reg(a, r)
    case FromImm(u) => Wrap(u)
  }

  function CsrUpdated(k: CsrKind, old_: Word, operand: Word): Word {
    match k
    case Swap => operand
    case SetBits => Bitwise(OrGate, old_, operand)
    case ClearBits => Bitwise(AndGate, old_, Not(operand))
  }

  /** The register an instruction writes, and with what. */
  function WriteOf(a: Arch, w: Word, mtip: bool): Option<RegWrite> {
    match Decode(w)
    case Lui(rd, upper) => Some(RegWrite(rd, Wrap(upper * 0x1000)))
    case Auipc(rd, upper) => Some(RegWrite(rd, Wrap(a.pc + upper * 0x1000)))
    case Jal(rd, _) => Some(RegWrite(rd, Wrap(a.pc + 4)))
    case Jalr(rd, _, _) => Some(RegWrite(rd, Wrap(a.pc + 4)))
    case Load(width, sx, rd, rs1, off) => Some(RegWrite(rd, ReadMem(a.mem, width, sx, Address(a, rs1, off))))
    case OpImm(k, rd, rs1, imm) => Some(RegWrite(rd, Compute(k, Reg(a, rs1), Wrap(imm))))
    case Op(k, rd, rs1, rs2) => Some(RegWrite(rd, Compute(k, Reg(a, rs1), Reg(a, rs2))))
    case CsrAccess(_, rd, csr, _) => Some(RegWrite(rd, CsrFile.Read(a.csrs, csr, mtip)))
    case _ => None
  }

  function StoreOf(a: Arch, w: Word): Option<StoreReq> {
    match Decode(w)
    case Store(width, rs1, rs2, off) => Some(StoreReq(width, Address(a, rs1, off), Reg(a, rs2)))
    case _ => None
  }

  /** A dret outside debug mode is reserved; on this core it does nothing. */
  function NextPc(a: Arch, w: Word): Word {
    match Decode(w)
    case Jal(_, off) => Wrap(a.pc + off)
    case Jalr(_, rs1, off) => Wrap(Reg(a, rs1) + off) / 2 * 2
    case Branch(c, rs1, rs2, off) => if Holds(c, Reg(a, rs1), Reg(a, rs2)) then Wrap(a.pc + off) else Wrap(a.pc + 4)
    case Mret => a.csrs.mepc
    case Dret => if a.dbg.parked then a.dbg.dpc else Wrap(a.pc + 4)
    case _ => Wrap(a.pc + 4)
  }

  function NextCsrs(a: Arch, w: Word, mtip: bool): CsrFile.Csrs {
    match Decode(w)
    case CsrAccess(k, _, csr, source) =>
      CsrFile.Written(a.csrs, csr, CsrUpdated(k, CsrFile.Read(a.csrs, csr, mtip), CsrOperand(a, source)))
    case Mret => a.csrs.(mie := a.csrs.mpie, mpie := true)
    case _ => a.csrs
  }

  // ---- the step ----

  /** Entry to debug mode: nothing executes, `dpc` names the instruction that did not. */
  function Halt(a: Arch, w: Word, e: Env): Arch {
    a.(pc := e.haltAddr, dbg := DebugFsm.Halted(a.dbg, a.pc, Decode(w).Ebreak?), mem := StepMem(a.mem, None))
  }

  /** Trap entry: `mepc` names the instruction that did not execute, and interrupts go off. */
  function Trap(a: Arch, isInterrupt: bool, code: int, val: Word): Arch
    requires 0 <= code < 32
  {
    a.(pc := a.csrs.mtvec,
       csrs := a.csrs.(mepc := a.pc, mcause := B2W(isInterrupt) * 0x8000_0000 + code, mtval := val,
                       mpie := a.csrs.mie, mie := false),
       mem := StepMem(a.mem, None))
  }

  function Executed(a: Arch, w: Word, e: Env): Arch {
    Arch(NextPc(a, w), SetReg(a.regs, WriteOf(a, w, e.mtip)), NextCsrs(a, w, e.mtip),
      if Decode(w).Dret? then a.dbg.(parked := false) else a.dbg,
      StepMem(a.mem, StoreOf(a, w)))
  }

  /** In debug mode requests are ignored, and so is an ebreak: the core steps over it, where the debug
      specification has it enter debug mode again. */
  predicate Halts(a: Arch, w: Word, e: Env) { !a.dbg.parked && (e.debugReq || Decode(w).Ebreak?) }

  /** Interrupts are taken in debug mode too, where the debug specification has them held off. */
  predicate Interrupted(a: Arch, e: Env) { a.csrs.mie && a.csrs.mtie && e.mtip }

  predicate Executes(a: Arch, w: Word, e: Env) {
    !Halts(a, w, e) && ExceptionOf(a, w).None? && !Interrupted(a, e)
  }

  /** One sequential event: halt, exception, interrupt, or the instruction `w` itself, in that order. An
      exception goes before an interrupt that is due at the same instruction, where the manual has the
      interrupt first; and a trap in debug mode goes through mtvec like any other, the core staying
      in debug mode. */
  function Step(a: Arch, w: Word, e: Env): Arch {
    if Halts(a, w, e) then Halt(a, w, e)
    else match ExceptionOf(a, w)
      case Some(x) => Trap(a, false, x.code, x.val)
      case None => if Interrupted(a, e) then Trap(a, true, INT_MTIMER, 0) else Executed(a, w, e)
  }

  /** A clock edge on which nothing happens but the timer. */
  function Idle(a: Arch): Arch { a.(mem := StepMem(a.mem, None)) }

  // ---- what a retirement shows ----

  datatype StoreRow = StoreRow(addr: Word, data: Word, funct3: int)

  datatype Record = Record(pc: Word, instr: Word, write: Option<RegWrite>, store: Option<StoreRow>)

  function RecordOf(a: Arch, w: Word, mtip: bool): Record {
    Record(a.pc, w, WriteOf(a, w, mtip),
      match StoreOf(a, w)
      case None => None
      case Some(s) => Some(StoreRow(s.addr, s.data, Funct3(w))))
  }

  /** The retirement of this step: one record if an instruction executed, nothing otherwise. */
  function Retires(a: Arch, w: Word, e: Env): seq<Record> {
    if Executes(a, w, e) then [RecordOf(a, w, e.mtip)] else []
  }
}
