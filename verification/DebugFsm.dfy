/** External-debug halt and resume (rtl/debug_fsm.sv). */
module DebugFsm {
  import opened Words

  datatype Debug = Debug(parked: bool, dpc: Word, dcsr: Word)

  const RESET: Debug := Debug(false, 0, 0)

  const CAUSE_EBREAK := 1
  const CAUSE_HALTREQ := 3

  predicate Enter(d: Debug, debugReq: bool, isEbreak: bool) { (debugReq || isEbreak) && !d.parked }
  predicate Exit(d: Debug, isDret: bool) { isDret && d.parked }

  /** `dcsr` with its cause field, bits 8:6, replaced. */
  function WithCause(dcsr: Word, cause: int): Word
    requires 0 <= cause < 8
  {
    dcsr / 512 * 512 + cause * 64 + dcsr % 64
  }

  function Halted(d: Debug, pc: Word, isEbreak: bool): Debug {
    Debug(true, pc, WithCause(d.dcsr, if isEbreak then CAUSE_EBREAK else CAUSE_HALTREQ))
  }

  function Next(d: Debug, debugReq: bool, isEbreak: bool, isDret: bool, pc: Word): Debug {
    if !d.parked then
      if Enter(d, debugReq, isEbreak) then Halted(d, pc, isEbreak) else d
    else if Exit(d, isDret) then d.(parked := false)
    else d
  }

  class DebugRegs {
    var parked: bool
    var dpc: Word
    var dcsr: Word

    function State(): Debug
      reads this
    {
      Debug(parked, dpc, dcsr)
    }

    constructor ()
      ensures State() == RESET
    {
      parked, dpc, dcsr := false, 0, 0;
    }

    method Clock(debugReq: bool, isEbreak: bool, isDret: bool, pc: Word)
      modifies this
      ensures State() == Next(old(State()), debugReq, isEbreak, isDret, pc)
    {
      if !parked {
        if debugReq || isEbreak {
          parked := true;
          dpc := pc;
          dcsr := WithCause(dcsr, if isEbreak then CAUSE_EBREAK else CAUSE_HALTREQ);
        }
      } else {
        if isDret {
          parked := false;
        }
      }
    }
  }
}
