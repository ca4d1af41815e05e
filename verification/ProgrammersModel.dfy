/** What a program sees of the machine, in the numbers of the manuals and the memory map: the bits of
    logical results, CSR addresses, exception and debug causes, and the device registers. Nothing here is
    stated through the constants and tables that the hardware and the sequential machine share. */
module ProgrammersModel {
  import opened Words
  import Alu
  import Clint
  import Controller
  import CsrFile
  import Datapath
  import DebugFsm
  import Dmem
  import Isa
  import MemBus
  import MemoryCorrect
  import Refinement
  import Top
  import UartTx

  // ---- logical operations, bit by bit as arithmetic on zeros and ones ----

  lemma GateArithmetic(x: int, y: int)
    requires x in {0, 1} && y in {0, 1}
    ensures GateBit(AndGate, x, y) == x * y && GateBit(OrGate, x, y) == x + y - x * y
    ensures GateBit(XorGate, x, y) == (x + y) % 2
  {}

  lemma NotBit(a: Word, k: nat)
    requires k < 32
    ensures Bit(Not(a), k) == 1 - Bit(a, k)
  {
    Pow2Values();
    ComplementBit(a, 32, k);
  }

  lemma {:induction false} ComplementBit(a: nat, n: nat, k: nat)
    requires k < n && a < Pow2(n)
    ensures (Pow2(n) - 1 - a) / Pow2(k) % 2 == 1 - a / Pow2(k) % 2
    decreases k
  {
    var c := Pow2(n) - 1 - a;
    assert Pow2(n) == 2 * Pow2(n - 1);
    if k == 0 {
      assert Pow2(0) == 1;
    } else {
      assert c / 2 == Pow2(n - 1) - 1 - a / 2;
      HalveThenShift(a, k);
      HalveThenShift(c, k);
      ComplementBit(a / 2, n - 1, k - 1);
    }
  }

  /** XOR is the sum modulo two of the operand bits, AND their product, and OR their sum less their
      product: for the ALU and for the sequential machine. */
  lemma LogicalResults(a: Word, b: Word, k: nat)
    requires k < 32
    ensures var x, y := Bit(a, k), Bit(b, k);
            && Bit(Alu.Result(a, b, 4), k) == Bit(Isa.Compute(Isa.XorK, a, b), k) == (x + y) % 2
            && Bit(Alu.Result(a, b, 3), k) == Bit(Isa.Compute(Isa.OrK, a, b), k) == x + y - x * y
            && Bit(Alu.Result(a, b, 2), k) == Bit(Isa.Compute(Isa.AndK, a, b), k) == x * y
  {
    hide Bit, Bitwise, GateBit;
    Alu.LogicBits(XorGate, a, b, k);
    Alu.LogicBits(OrGate, a, b, k);
    Alu.LogicBits(AndGate, a, b, k);
    GateArithmetic(Bit(a, k), Bit(b, k));
  }

  /** CSRRS sets exactly the bits that are set in its operand, CSRRC clears exactly those. */
  lemma CsrBits(old_: Word, operand: Word, k: nat)
    requires k < 32
    ensures var x, y := Bit(old_, k), Bit(operand, k);
            && Bit(Datapath.CsrWdata(2, old_, operand), k) == Bit(Isa.CsrUpdated(Isa.SetBits, old_, operand), k) ==
               (if y == 1 then 1 else x)
            && Bit(Datapath.CsrWdata(3, old_, operand), k) == Bit(Isa.CsrUpdated(Isa.ClearBits, old_, operand), k) ==
               (if y == 1 then 0 else x)
  {
    hide Bit, Bitwise, Not, GateBit;
    Alu.LogicBits(OrGate, old_, operand, k);
    Alu.LogicBits(AndGate, old_, Not(operand), k);
    NotBit(operand, k);
    GateArithmetic(Bit(old_, k), Bit(operand, k));
    GateArithmetic(Bit(old_, k), Bit(Not(operand), k));
  }

  // ---- traps and debug entry ----

  /** What a trap leaves in mcause and mtval: 2 and the word itself for an illegal instruction, 11 and
      zero for an ecall, 4 or 6 and the address for a misaligned load or store, and 0x8000_0007 and zero
      for the timer interrupt. */
  ghost predicate CauseIs(c: CsrFile.Csrs, a: Isa.Arch, w: Word, e: Isa.Env) {
    var d := Isa.Decode(w);
    && (d.Illegal? ==> c.mcause == 2 && c.mtval == w)
    && (d.Ecall? ==> c.mcause == 11 && c.mtval == 0)
    && (d.Load? ==>
          var addr := (Isa.Reg(a, d.rs1) + d.off) % 0x1_0000_0000;
          !Isa.Aligned(d.width, addr) ==> c.mcause == 4 && c.mtval == addr)
    && (d.Store? ==>
          var addr := (Isa.Reg(a, d.rs1) + d.off) % 0x1_0000_0000;
          !Isa.Aligned(d.width, addr) ==> c.mcause == 6 && c.mtval == addr)
    && (Isa.ExceptionOf(a, w).None? && a.csrs.mie && a.csrs.mtie && e.mtip ==>
          c.mcause == 0x8000_0007 && c.mtval == 0)
  }

  lemma TrapCauses(a: Isa.Arch, w: Word, e: Isa.Env)
    requires !Isa.Halts(a, w, e)
    ensures CauseIs(Isa.Step(a, w, e).csrs, a, w, e)
  {
    hide Isa.Decode, Isa.Aligned, Isa.Executed, Isa.StepMem;
  }

  /** The same registers after the pipeline's edge. */
  lemma TrapCausesOnPipeline(imem: Top.Imem, s: Top.Sys, p: Top.Pins)
    requires Refinement.Inv(imem, s.core) && s.core.de.valid && !Refinement.ResumeRace(s)
    requires !Datapath.EnterDebug(s.core, p.debugReq)
    ensures var a, w, e := Refinement.Abs(s), Refinement.WordAt(imem, s), Refinement.EnvOf(s, p);
            CauseIs(Top.Next(imem, s, p).core.csrs, a, w, e)
  {
    hide Refinement.AbsRegs, Refinement.AbsPc, Top.NextMem, Top.Next, Isa.Step, CauseIs, Isa.Decode,
      Refinement.ResumeRace, Controller.ControlOf, Clint.Mtip;
    Refinement.StepRefines(imem, s, p);
    NotHalted(imem, s, p);
    TrapCauses(Refinement.Abs(s), Refinement.WordAt(imem, s), Refinement.EnvOf(s, p));
  }

  lemma NotHalted(imem: Top.Imem, s: Top.Sys, p: Top.Pins)
    requires Refinement.Inv(imem, s.core) && s.core.de.valid && !Datapath.EnterDebug(s.core, p.debugReq)
    ensures !Isa.Halts(Refinement.Abs(s), Refinement.WordAt(imem, s), Refinement.EnvOf(s, p))
  {
    hide Refinement.AbsRegs, Top.NextMem, Isa.Decode, Controller.ControlOf, Controller.ImmOf;
    Refinement.DebugDecode(Refinement.WordAt(imem, s));
  }

  /** Bits 8:6 of dcsr say 1 after an ebreak and 3 after a halt request; its other bits stay. */
  ghost predicate HaltIs(d: DebugFsm.Debug, before: DebugFsm.Debug, pc: Word, isEbreak: bool) {
    && d.parked && d.dpc == pc && d.dcsr / 64 % 8 == (if isEbreak then 1 else 3)
    && d.dcsr / 512 == before.dcsr / 512 && d.dcsr % 64 == before.dcsr % 64
  }

  lemma CauseField(dcsr: Word, cause: int)
    requires 0 <= cause < 8
    ensures var d := dcsr / 512 * 512 + cause * 64 + dcsr % 64;
            d / 64 % 8 == cause && d / 512 == dcsr / 512 && d % 64 == dcsr % 64
  {
    var d, q, r := dcsr / 512 * 512 + cause * 64 + dcsr % 64, dcsr / 512, dcsr % 64;
    DivUnique(d, 512, q, cause * 64 + r);
    DivUnique(d, 64, 8 * q + cause, r);
    DivUnique(8 * q + cause, 8, q, cause);
  }

  lemma HaltedIs(before: DebugFsm.Debug, pc: Word, isEbreak: bool)
    ensures HaltIs(DebugFsm.Halted(before, pc, isEbreak), before, pc, isEbreak)
  {
    CauseField(before.dcsr, if isEbreak then 1 else 3);
  }

  lemma HaltCauses(a: Isa.Arch, w: Word, e: Isa.Env)
    requires Isa.Halts(a, w, e)
    ensures HaltIs(Isa.Step(a, w, e).dbg, a.dbg, a.pc, Isa.Decode(w).Ebreak?)
  {
    hide Isa.Decode, Isa.StepMem, DebugFsm.Halted, HaltIs;
    HaltedIs(a.dbg, a.pc, Isa.Decode(w).Ebreak?);
  }

  lemma EbreakFlag(imem: Top.Imem, s: Top.Sys)
    requires Refinement.Inv(imem, s.core)
    ensures s.core.de.ctrl.isEbreak <==> s.core.de.valid && Isa.Decode(Refinement.WordAt(imem, s)).Ebreak?
  {
    hide Isa.Decode, Controller.ControlOf, Controller.ImmOf;
    Refinement.DebugDecode(Refinement.WordAt(imem, s));
  }

  lemma HaltCausesOnPipeline(imem: Top.Imem, s: Top.Sys, p: Top.Pins)
    requires Refinement.Inv(imem, s.core) && Datapath.EnterDebug(s.core, p.debugReq)
    ensures HaltIs(Top.Next(imem, s, p).core.dbg, s.core.dbg, s.core.de.pc,
              s.core.de.valid && Isa.Decode(Refinement.WordAt(imem, s)).Ebreak?)
  {
    hide Refinement.Inv, Refinement.WordAt, Isa.Decode, Datapath.ExecOf, CsrFile.Next, Datapath.CsrPort,
      Datapath.PcNext, Datapath.NextFd, Datapath.NextDe, Datapath.NextEm, Datapath.NextMw,
      Datapath.LoadStall, Top.NextMem, DebugFsm.Halted, HaltIs;
    EbreakFlag(imem, s);
    HaltedIs(s.core.dbg, s.core.de.pc, s.core.de.ctrl.isEbreak);
  }

  // ---- the CSR address map ----

  /** What a CSRRW with a register operand leaves in the CSR file and brings to its destination. */
  lemma CsrMap(a: Isa.Arch, w: Word, e: Isa.Env, rd: Reg, n: int, r: Reg)
    requires Isa.Executes(a, w, e) && Isa.Decode(w) == Isa.CsrAccess(Isa.Swap, rd, n, Isa.FromReg(r))
    ensures var v, c, c' := Isa.Reg(a, r), a.csrs, Isa.Step(a, w, e).csrs;
            && (n == 0x300 ==> c' == c.(mie := Bit(v, 3) == 1, mpie := Bit(v, 7) == 1))
            && (n == 0x304 ==> c' == c.(mtie := Bit(v, 7) == 1))
            && (n == 0x305 ==> c' == c.(mtvec := v))
            && (n == 0x340 ==> c' == c.(mscratch := v))
            && (n == 0x341 ==> c' == c.(mepc := v - v % 4))
            && (n == 0x342 ==> c' == c.(mcause := v))
            && (n == 0x343 ==> c' == c.(mtval := v))
            && (n !in {0x300, 0x304, 0x305, 0x340, 0x341, 0x342, 0x343} ==> c' == c)
    ensures var c, old_ := a.csrs, Isa.Reg(Isa.Step(a, w, e), rd);
            rd != 0 ==>
              && (n == 0x300 ==> old_ == (if c.mpie then 128 else 0) + (if c.mie then 8 else 0))
              && (n == 0x304 ==> old_ == if c.mtie then 128 else 0)
              && (n == 0x305 ==> old_ == c.mtvec) && (n == 0x340 ==> old_ == c.mscratch)
              && (n == 0x341 ==> old_ == c.mepc) && (n == 0x342 ==> old_ == c.mcause)
              && (n == 0x343 ==> old_ == c.mtval)
              && (n == 0x344 ==> old_ == if e.mtip then 128 else 0)
              && (n !in {0x300, 0x304, 0x305, 0x340, 0x341, 0x342, 0x343, 0x344} ==> old_ == 0)
  {
    hide Isa.Decode, Isa.StepMem, Isa.ExceptionOf, Isa.Halts;
    CsrFile.BitPlaces();
  }

  // ---- the memory map ----

  /** The bus in one cycle: a store of `data` to `addr`, or none. */
  datatype Cycle = Cycle(store: bool, addr: Word, data: Word, funct3: int)

  function BusRun(m: MemBus.Mem, cycles: seq<Cycle>): MemBus.Mem
    decreases |cycles|
  {
    if cycles == [] then m
    else
      var c := cycles[0];
      BusRun(MemBus.Next(m, c.store, c.addr, c.data, c.funct3), cycles[1..])
  }

  predicate NoStoreTo(cycles: seq<Cycle>, addr: Word) {
    forall i :: 0 <= i < |cycles| ==> !(cycles[i].store && cycles[i].addr == addr)
  }

  /** A word load from `addr`, as the hardware and as the sequential machine does it. */
  ghost predicate Reads(m: MemBus.Mem, addr: Word, v: Word) {
    && MemBus.Read(m, addr, 2) == v
    && Isa.ReadMem(m, Isa.W32, false, addr) == v
  }

  lemma {:induction false} CounterRuns(m: MemBus.Mem, cycles: seq<Cycle>)
    requires NoStoreTo(cycles, 0x0002_0000)
    ensures BusRun(m, cycles).timer.mtime == Wrap(m.timer.mtime + |cycles|)
    decreases |cycles|
  {
    if cycles == [] {
      WrapNoop(m.timer.mtime);
    } else {
      var c := cycles[0];
      assert !(c.store && c.addr == 0x0002_0000);
      var m' := MemBus.Next(m, c.store, c.addr, c.data, c.funct3);
      assert m'.timer.mtime == Wrap(m.timer.mtime + 1) by {
        hide Dmem.Write, UartTx.Next;
        MemoryCorrect.DeviceRegisters(c.addr);
      }
      CounterRuns(m', cycles[1..]);
      WrapAddLeft(m.timer.mtime + 1, |cycles| - 1);
    }
  }

  lemma {:induction false} CompareStays(m: MemBus.Mem, cycles: seq<Cycle>)
    requires NoStoreTo(cycles, 0x0002_0004)
    ensures BusRun(m, cycles).timer.mtimecmp == m.timer.mtimecmp
    decreases |cycles|
  {
    if cycles != [] {
      var c := cycles[0];
      assert !(c.store && c.addr == 0x0002_0004);
      MemoryCorrect.DeviceRegisters(c.addr);
      CompareStays(MemBus.Next(m, c.store, c.addr, c.data, c.funct3), cycles[1..]);
    }
  }

  lemma {:induction false} LastByteStays(m: MemBus.Mem, cycles: seq<Cycle>)
    requires NoStoreTo(cycles, 0x0003_0000)
    ensures BusRun(m, cycles).uart.lastByte == m.uart.lastByte
    decreases |cycles|
  {
    if cycles != [] {
      var c := cycles[0];
      assert !(c.store && c.addr == 0x0003_0000);
      MemoryCorrect.DeviceRegisters(c.addr);
      LastByteStays(MemBus.Next(m, c.store, c.addr, c.data, c.funct3), cycles[1..]);
    }
  }

  /** Each device register by itself, in a state at rest. */
  lemma DeviceReads(m: MemBus.Mem)
    ensures Reads(m, 0x0002_0000, m.timer.mtime) && Reads(m, 0x0002_0004, m.timer.mtimecmp)
    ensures Reads(m, 0x0002_0008, 0) && Reads(m, 0x0002_000C, 0)
    ensures Reads(m, 0x0003_0000, m.uart.lastByte) && Reads(m, 0x0003_0004, 1)
    ensures Reads(m, 0x0003_0008, 0) && Reads(m, 0x0003_000C, 0)
  {}

  /** A word stored to the compare register is loaded back, however many cycles pass without another
      store to it. */
  lemma CompareReadsBack(m: MemBus.Mem, v: Word, funct3: int, cycles: seq<Cycle>)
    requires NoStoreTo(cycles, 0x0002_0004)
    ensures Reads(BusRun(MemBus.Next(m, true, 0x0002_0004, v, funct3), cycles), 0x0002_0004, v)
  {
    hide Reads, MemBus.Next;
    var m' := MemBus.Next(m, true, 0x0002_0004, v, funct3);
    StoreLands(m, v, funct3);
    CompareStays(m', cycles);
    DeviceReads(BusRun(m', cycles));
  }

  /** A word stored to the counter is loaded back with the cycles since counted on. */
  lemma CounterReadsBack(m: MemBus.Mem, v: Word, funct3: int, cycles: seq<Cycle>)
    requires NoStoreTo(cycles, 0x0002_0000)
    ensures Reads(BusRun(MemBus.Next(m, true, 0x0002_0000, v, funct3), cycles), 0x0002_0000, Wrap(v + |cycles|))
  {
    hide Reads, MemBus.Next;
    var m' := MemBus.Next(m, true, 0x0002_0000, v, funct3);
    StoreLands(m, v, funct3);
    CounterRuns(m', cycles);
    DeviceReads(BusRun(m', cycles));
  }

  /** The byte last sent is loaded back, and the transmitter always says it is ready. */
  lemma UartReadsBack(m: MemBus.Mem, v: Word, funct3: int, cycles: seq<Cycle>)
    requires NoStoreTo(cycles, 0x0003_0000)
    ensures var m' := BusRun(MemBus.Next(m, true, 0x0003_0000, v, funct3), cycles);
            Reads(m', 0x0003_0000, v % 256) && Reads(m', 0x0003_0004, 1)
  {
    hide Reads, MemBus.Next;
    var m' := MemBus.Next(m, true, 0x0003_0000, v, funct3);
    StoreLands(m, v, funct3);
    LastByteStays(m', cycles);
    DeviceReads(BusRun(m', cycles));
  }

  lemma StoreLands(m: MemBus.Mem, v: Word, funct3: int)
    ensures MemBus.Next(m, true, 0x0002_0004, v, funct3).timer.mtimecmp == v
    ensures MemBus.Next(m, true, 0x0002_0000, v, funct3).timer.mtime == v
    ensures MemBus.Next(m, true, 0x0003_0000, v, funct3).uart == UartTx.Uart(v % 256, true)
  {}

  /** The two device windows are sixteen bytes each, at these addresses; everything else is RAM. */
  lemma Windows(m: MemBus.Mem, a: Word, v: Word, funct3: int)
    requires 0 <= funct3 < 8
    ensures var m' := MemBus.Next(m, true, a, v, funct3);
            var device := 0x0002_0000 <= a <= 0x0002_000F || 0x0003_0000 <= a <= 0x0003_000F;
            && m'.ram == (if device then m.ram else Dmem.Write(m.ram, a, v, funct3))
            && (!device ==> MemBus.Read(m, a, funct3) == Dmem.Read(m.ram, a, funct3))
  {
    hide Dmem.Write, Dmem.Read;
  }

  // ---- after reset ----

  /** Until stored to, after reset the counter holds the number of cycles, the compare register is all
      ones, and the UART has sent zero; no CSR reads as anything but zero, apart from mip when the
      timer is due; and the core is not parked. */
  lemma AfterReset(ram: Dmem.Ram, cycles: seq<Cycle>, n: int, mtip: bool)
    ensures var m := BusRun(MemBus.Mem(ram, Clint.RESET, UartTx.RESET), cycles);
            && (NoStoreTo(cycles, 0x0002_0000) ==> Reads(m, 0x0002_0000, Wrap(|cycles|)))
            && (NoStoreTo(cycles, 0x0002_0004) ==> Reads(m, 0x0002_0004, 0xFFFF_FFFF))
            && (NoStoreTo(cycles, 0x0003_0000) ==> Reads(m, 0x0003_0000, 0))
    ensures CsrFile.Read(CsrFile.RESET, n, mtip) == if n == 0x344 && mtip then 128 else 0
    ensures !DebugFsm.RESET.parked && DebugFsm.RESET.dpc == 0 && DebugFsm.RESET.dcsr == 0
  {
    hide Reads;
    var m0 := MemBus.Mem(ram, Clint.RESET, UartTx.RESET);
    DeviceReads(BusRun(m0, cycles));
    if NoStoreTo(cycles, 0x0002_0000) {
      CounterRuns(m0, cycles);
    }
    if NoStoreTo(cycles, 0x0002_0004) {
      CompareStays(m0, cycles);
    }
    if NoStoreTo(cycles, 0x0003_0000) {
      LastByteStays(m0, cycles);
    }
  }
}
