/** The core, its instruction memory and the data bus (rtl/top.sv). */
module Top {
  import opened Words
  import Clint
  import Datapath
  import Dmem
  import MemBus
  import RegFile
  import UartTx

  datatype Sys = Sys(core: Datapath.Core, mem: MemBus.Mem)

  /** The two inputs of the top level, sampled at one clock edge. */
  datatype Pins = Pins(debugReq: bool, haltAddr: Word)

  /** Instruction memory: any total function of the address. */
  type Imem = Word -> Word

  function ResetState(rf: RegFile.Regs, ram: Dmem.Ram): Sys {
    Sys(Datapath.ResetState(rf), MemBus.Mem(ram, Clint.RESET, UartTx.RESET))
  }

  function ReadData(s: Sys): Word { MemBus.Read(s.mem, s.core.em.alu, s.core.em.funct3) }

  function InputsOf(imem: Imem, s: Sys, p: Pins): Datapath.Inputs {
    Datapath.Inputs(imem(s.core.pcf), ReadData(s), Clint.Mtip(s.mem.timer), p.debugReq, p.haltAddr)
  }

  /** What the data side becomes at this edge, by the store in the memory stage. */
  function NextMem(s: Sys): MemBus.Mem {
    MemBus.Next(s.mem, s.core.em.memWrite, s.core.em.alu, s.core.em.wdata, s.core.em.funct3)
  }

  function Next(imem: Imem, s: Sys, p: Pins): Sys {
    Sys(Datapath.Next(s.core, InputsOf(imem, s, p)), NextMem(s))
  }

  class Soc {
    const imem: Imem
    const pipe: Datapath.Pipe
    const bus: MemBus.Bus

    ghost predicate Valid() { pipe.Valid() && bus.Valid() }

    function State(): Sys
      requires pipe.rf.rf.Length == 32 && bus.ram.mem.Length >= 4 && bus.ram.mem.Length % 4 == 0
      reads pipe, pipe.rf.rf, pipe.csrs, pipe.dbg, bus.ram.mem, bus.timer, bus.uart
    {
      Sys(pipe.State(), bus.State())
    }

    constructor (program: Imem, rf: RegFile.Regs, ram: Dmem.Ram)
      ensures Valid() && imem == program && State() == ResetState(rf, ram)
    {
      imem := program;
      pipe := new Datapath.Pipe(rf);
      bus := new MemBus.Bus(ram);
    }

    method Clock(p: Pins)
      requires Valid()
      modifies pipe, pipe.rf.rf, pipe.csrs, pipe.dbg, bus.ram.mem, bus.timer, bus.uart
      ensures State() == Next(imem, old(State()), p)
    {
      var em := pipe.em;
      var inputs := Datapath.Inputs(imem(pipe.pcf), MemBus.Read(bus.State(), em.alu, em.funct3),
        Clint.Mtip(bus.timer.State()), p.debugReq, p.haltAddr);
      pipe.Clock(inputs);
      bus.Clock(em.memWrite, em.alu, em.wdata, em.funct3);
    }
  }
}
