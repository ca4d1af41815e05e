/** The timer block: a free-running counter and a compare register (rtl/clint.sv). */
module Clint {
  import opened Words

  datatype Timer = Timer(mtime: Word, mtimecmp: Word)

  const RESET: Timer := Timer(0, 0xFFFF_FFFF)

  function Next(t: Timer, we: bool, addr: Word, wdata: Word): Timer {
    Timer(if we && addr % 16 == 0 then wdata else Add(t.mtime, 1),
          if we && addr % 16 == 4 then wdata else t.mtimecmp)
  }

  function Read(t: Timer, addr: Word): Word {
    if addr % 16 == 0 then t.mtime else if addr % 16 == 4 then t.mtimecmp else 0
  }

  predicate Mtip(t: Timer) { t.mtime >= t.mtimecmp }

  class ClintRegs {
    var mtimeR: Word
    var mtimecmpR: Word

    function State(): Timer
      reads this
    {
      Timer(mtimeR, mtimecmpR)
    }

    constructor ()
      ensures State() == RESET
    {
      mtimeR, mtimecmpR := 0, 0xFFFF_FFFF;
    }

    method Clock(we: bool, addr: Word, wdata: Word)
      modifies this
      ensures State() == Next(old(State()), we, addr, wdata)
    {
      if we && addr % 16 == 0 {
        mtimeR := wdata;
      } else {
        mtimeR := Add(mtimeR, 1);
      }
      if we && addr % 16 == 4 {
        mtimecmpR := wdata;
      }
    }
  }
}
