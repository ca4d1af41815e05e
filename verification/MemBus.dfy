/** Address decoding between the load/store port and RAM, timer and UART (rtl/mem_bus.sv). */
module MemBus {
  import opened Words
  import opened Rv32iPkg
  import Clint
  import Dmem
  import UartTx

  datatype Mem = Mem(ram: Dmem.Ram, timer: Clint.Timer, uart: UartTx.Uart)

  predicate IsClint(a: Word) { CLINT_BASE <= a < CLINT_BASE + 0x10 }
  predicate IsUart(a: Word) { UART_BASE <= a < UART_BASE + 0x10 }

  function Read(m: Mem, a: Word, funct3: int): Word {
    if IsClint(a) then Clint.Read(m.timer, a)
    else if IsUart(a) then UartTx.Read(m.uart, a)
    else Dmem.Read(m.ram, a, funct3)
  }

  /** One clock edge with the given store port. */
  function Next(m: Mem, we: bool, a: Word, wdata: Word, funct3: int): Mem {
    Mem(if we && !IsClint(a) && !IsUart(a) then Dmem.Write(m.ram, a, wdata, funct3) else m.ram,
        Clint.Next(m.timer, we && IsClint(a), a, wdata),
        UartTx.Next(m.uart, we && IsUart(a), a, wdata))
  }

  class Bus {
    const ram: Dmem.RamArray
    const timer: Clint.ClintRegs
    const uart: UartTx.UartRegs

    ghost predicate Valid() { ram.Valid() }

    function State(): Mem
      requires ram.mem.Length >= 4 && ram.mem.Length % 4 == 0
      reads ram.mem, timer, uart
    {
      Mem(ram.State(), timer.State(), uart.State())
    }

    constructor (init: Dmem.Ram)
      ensures Valid() && fresh(ram) && fresh(ram.mem) && fresh(timer) && fresh(uart)
      ensures State() == Mem(init, Clint.RESET, UartTx.RESET)
    {
      ram := new Dmem.RamArray(init);
      timer := new Clint.ClintRegs();
      uart := new UartTx.UartRegs();
    }

    method Clock(we: bool, addr: Word, wdata: Word, funct3: int)
      requires Valid()
      modifies ram.mem, timer, uart
      ensures State() == Next(old(State()), we, addr, wdata, funct3)
    {
      ram.Clock(we && !IsClint(addr) && !IsUart(addr), addr, wdata, funct3);
      timer.Clock(we && IsClint(addr), addr, wdata);
      uart.Clock(we && IsUart(addr), addr, wdata);
    }
  }
}
