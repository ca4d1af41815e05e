/** Combinational hazard resolution (rtl/hazard_unit.sv). */
module HazardUnit {
  import opened Words
  import opened Rv32iPkg

  function Select(regWriteM: bool, rdM: Reg, regWriteW: bool, rdW: Reg, rsE: Reg): TwoBits {
    if regWriteM && rdM != 0 && rdM == rsE then FWD_MEM
    else if regWriteW && rdW != 0 && rdW == rsE then FWD_WB
    else FWD_NONE
  }

  predicate LoadStall(isLoadE: bool, rdE: Reg, rs1UsedD: bool, rs1D: Reg, rs2UsedD: bool, rs2D: Reg) {
    isLoadE && rdE != 0 && ((rs1UsedD && rdE == rs1D) || (rs2UsedD && rdE == rs2D))
  }

  datatype Redirects = Redirects(
    pcSrcE: bool, jumpD: bool, enterDebug: bool, exitDebug: bool, trapEn: bool, mretEn: bool)

  datatype Controls = Controls(stallF: bool, stallD: bool, flushD: bool, flushE: bool, flushM: bool)

  function Resolve(lwStall: bool, r: Redirects): Controls {
    var flushD := r.pcSrcE || r.jumpD || r.enterDebug || r.exitDebug || r.trapEn || r.mretEn;
    Controls(lwStall && !flushD, lwStall, flushD,
      r.pcSrcE || lwStall || r.enterDebug || r.exitDebug || r.trapEn || r.mretEn,
      r.enterDebug || r.trapEn)
  }
}
