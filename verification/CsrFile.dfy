/** The machine-mode CSR file (rtl/csr_file.sv). */
module CsrFile {
  import opened Words
  import opened Rv32iPkg

  datatype Csrs = Csrs(
    mie: bool, mpie: bool, mtie: bool,
    mtvec: Word, mepc: Word, mcause: Word, mtval: Word, mscratch: Word)

  const RESET: Csrs := Csrs(false, false, false, 0, 0, 0, 0, 0)

  function Read(c: Csrs, addr: int, mtip: bool): Word {
    if addr == CSR_MSTATUS then B2W(c.mpie) * 128 + B2W(c.mie) * 8
    else if addr == CSR_MIE then B2W(c.mtie) * 128
    else if addr == CSR_MTVEC then c.mtvec
    else if addr == CSR_MSCRATCH then c.mscratch
    else if addr == CSR_MEPC then c.mepc
    else if addr == CSR_MCAUSE then c.mcause
    else if addr == CSR_MTVAL then c.mtval
    else if addr == CSR_MIP then B2W(mtip) * 128
    else if addr == CSR_MHARTID then 0
    else 0
  }

  /** The effect of a CSR write alone, as the write port's case statement has it. */
  function Written(c: Csrs, addr: int, v: Word): Csrs {
    if addr == CSR_MSTATUS then c.(mie := v / 8 % 2 == 1, mpie := v / 128 % 2 == 1)
    else if addr == CSR_MIE then c.(mtie := v / 128 % 2 == 1)
    else if addr == CSR_MTVEC then c.(mtvec := v)
    else if addr == CSR_MSCRATCH then c.(mscratch := v)
    else if addr == CSR_MEPC then c.(mepc := v / 4 * 4)
    else if addr == CSR_MCAUSE then c.(mcause := v)
    else if addr == CSR_MTVAL then c.(mtval := v)
    else c
  }

  /** Trap entry: where from, why and with what value. */
  datatype Cause = Cause(isInt: bool, code: int, pc: Word, val: Word)

  function Trapped(c: Csrs, t: Cause): Csrs
    requires 0 <= t.code < 32
  {
    c.(mepc := t.pc, mcause := B2W(t.isInt) * 0x8000_0000 + t.code, mtval := t.val,
       mpie := c.mie, mie := false)
  }

  function Returned(c: Csrs): Csrs { c.(mie := c.mpie, mpie := true) }

  datatype Port = Port(addr: int, we: bool, wdata: Word, trapEn: bool, cause: Cause, mretEn: bool)

  predicate PortOk(p: Port) { 0 <= p.cause.code < 32 }

  /** One clock edge: a trap outranks an mret, which outranks a write. */
  function Next(c: Csrs, p: Port): Csrs
    requires PortOk(p)
  {
    if p.trapEn then Trapped(c, p.cause)
    else if p.mretEn then Returned(c)
    else if p.we then Written(c, p.addr, p.wdata)
    else c
  }

  class CsrRegs {
    var mstatusMie: bool
    var mstatusMpie: bool
    var mieMtie: bool
    var mtvecR: Word
    var mepcR: Word
    var mcauseR: Word
    var mtvalR: Word
    var mscratchR: Word

    function State(): Csrs
      reads this
    {
      Csrs(mstatusMie, mstatusMpie, mieMtie, mtvecR, mepcR, mcauseR, mtvalR, mscratchR)
    }

    constructor ()
      ensures State() == RESET
    {
      mstatusMie, mstatusMpie, mieMtie := false, false, false;
      mtvecR, mepcR, mcauseR, mtvalR, mscratchR := 0, 0, 0, 0, 0;
    }

    method Clock(p: Port)
      requires PortOk(p)
      modifies this
      ensures State() == Next(old(State()), p)
    {
      if p.trapEn {
        mepcR := p.cause.pc;
        mcauseR := B2W(p.cause.isInt) * 0x8000_0000 + p.cause.code;
        mtvalR := p.cause.val;
        mstatusMpie := mstatusMie;
        mstatusMie := false;
      } else if p.mretEn {
        mstatusMie := mstatusMpie;
        mstatusMpie := true;
      } else if p.we {
        if p.addr == CSR_MSTATUS {
          mstatusMie := p.wdata / 8 % 2 == 1;
          mstatusMpie := p.wdata / 128 % 2 == 1;
        } else if p.addr == CSR_MIE {
          mieMtie := p.wdata / 128 % 2 == 1;
        } else if p.addr == CSR_MTVEC {
          mtvecR := p.wdata;
        } else if p.addr == CSR_MSCRATCH {
          mscratchR := p.wdata;
        } else if p.addr == CSR_MEPC {
          mepcR := p.wdata / 4 * 4;
        } else if p.addr == CSR_MCAUSE {
          mcauseR := p.wdata;
        } else if p.addr == CSR_MTVAL {
          mtvalR := p.wdata;
        }
      }
    }
  }

  /** Reading back a written CSR: the implemented writable registers return the written value
      through their write mask, and a write leaves every other address reading as before. */
  lemma WriteThenRead(c: Csrs, addr: int, v: Word, other: int, mtip: bool)
    requires other != addr
    ensures Read(Written(c, addr, v), other, mtip) == Read(c, other, mtip)
    ensures addr in {CSR_MTVEC, CSR_MSCRATCH, CSR_MCAUSE, CSR_MTVAL} ==> Read(Written(c, addr, v), addr, mtip) == v
    ensures addr == CSR_MEPC ==> Read(Written(c, addr, v), addr, mtip) == v - v % 4
    ensures addr == CSR_MSTATUS ==> Read(Written(c, addr, v), addr, mtip) == Bit(v, 3) * 8 + Bit(v, 7) * 128
    ensures addr == CSR_MIE ==> Read(Written(c, addr, v), addr, mtip) == Bit(v, 7) * 128
    ensures addr in {CSR_MIP, CSR_MHARTID} ==> Read(Written(c, addr, v), addr, mtip) == Read(c, addr, mtip)
  {
    hide Pow2;
    assert Pow2(3) == 8 && Pow2(7) == 128 by {
      BitPlaces();
    }
  }

  lemma BitPlaces()
    ensures Pow2(3) == 8 && Pow2(7) == 128
  {
    assert Pow2(3) == 8;
    Pow2Add(3, 3);
    assert Pow2(7) == 2 * Pow2(6);
  }
}
