/** The transmit-only UART: one pulse per store to its data register (rtl/uart_tx.sv). */
module UartTx {
  import opened Words

  datatype Uart = Uart(lastByte: Byte, txValid: bool)

  const RESET: Uart := Uart(0, false)

  function Next(u: Uart, we: bool, addr: Word, wdata: Word): Uart {
    if we && addr % 16 == 0 then Uart(wdata % 0x100, true) else u.(txValid := false)
  }

  function Read(u: Uart, addr: Word): Word {
    if addr % 16 == 0 then u.lastByte else if addr % 16 == 4 then 1 else 0
  }

  class UartRegs {
    var lastByteR: Byte
    var txValid: bool

    function State(): Uart
      reads this
    {
      Uart(lastByteR, txValid)
    }

    constructor ()
      ensures State() == RESET
    {
      lastByteR, txValid := 0, false;
    }

    method Clock(we: bool, addr: Word, wdata: Word)
      modifies this
      ensures State() == Next(old(State()), we, addr, wdata)
    {
      txValid := false;
      if we && addr % 16 == 0 {
        lastByteR := wdata % 0x100;
        txValid := true;
      }
    }
  }
}
