/** Concrete inputs on which the two debug hypotheses of the refinement fail. */
module Witnesses {
  import opened Words
  import opened Rv32iPkg
  import opened Runs
  import Clint
  import Controller
  import CsrFile
  import Datapath
  import Dmem
  import Encoders
  import GenStream
  import Isa
  import Refinement
  import RegFile
  import Top
  import Transparency

  // ---- a halt accepted on a bubble ----

  /** `beq x0, x0, +16` at every address. */
  function Leap(pc: Word): Word { Encoders.EncB(OP_BRANCH, 0, 0, 0, 16) }

  const QUIET: Top.Pins := Top.Pins(false, 0)

  lemma LeapDecodes(a: Isa.Arch)
    ensures var w := Leap(a.pc);
            Isa.ExceptionOf(a, w).None? && Isa.NextPc(a, w) == Wrap(a.pc + 16) &&
            !Isa.Decode(w).Ebreak? && !Isa.Decode(w).Dret? && !Controller.JumpOf(w)
  {
    hide Encoders.EncB;
    GenStream.DecodeBranch(0, 0, 0, 16);
    Encoders.RoundTripB(OP_BRANCH, 0, 0, 0, 16);
  }

  lemma BubblesDoNotHalt(imem: Top.Imem, s: Top.Sys)
    requires Refinement.Inv(imem, s.core) && !s.core.de.valid
    ensures !Datapath.EnterDebug(s.core, false)
  {}

  lemma LeapCommits(s: Top.Sys)
    requires Refinement.Inv(Leap, s.core) && s.core.de.valid && !s.core.csrs.mie
    ensures var s' := Top.Next(Leap, s, QUIET);
            && Refinement.Abs(s') == Isa.Step(Refinement.Abs(s), Leap(s.core.de.pc), Refinement.EnvOf(s, QUIET))
            && Refinement.Abs(s').pc == Wrap(s.core.de.pc + 16) && s'.core.dbg == s.core.dbg
            && Refinement.Redirected(
                 Datapath.RedirectsOf(s.core, Datapath.ExecOf(s.core, Clint.Mtip(s.mem.timer)), false))
  {
    hide Refinement.Inv, Datapath.ExecOf, Refinement.AbsRegs, Leap, Isa.Decode, Isa.ExceptionOf, Isa.NextPc,
      Isa.StepMem, Isa.WriteOf, Isa.NextCsrs, Isa.StoreOf, Isa.SetReg, Controller.ControlOf,
      Controller.JumpOf, Top.NextMem, Datapath.LoadStall, Top.Next;
    LeapDecodes(Refinement.Abs(s));
    LeapIsNoEbreak(s);
    Refinement.ExecFacts(Leap, s, QUIET);
    Refinement.ExecuteStep(Leap, s, QUIET);
    LeapRedirects(s);
  }

  lemma LeapIsNoEbreak(s: Top.Sys)
    requires Refinement.Inv(Leap, s.core) && s.core.de.valid
    ensures !Datapath.EnterDebug(s.core, false) && s.core.de.instr == Leap(s.core.de.pc)
  {
    hide Leap, Isa.Decode, Isa.ExceptionOf, Isa.NextPc, Controller.ControlOf, Controller.JumpOf;
    LeapDecodes(Refinement.Abs(s));
    Refinement.DebugDecode(Leap(s.core.de.pc));
  }

  lemma LeapRedirects(s: Top.Sys)
    requires Refinement.Inv(Leap, s.core) && s.core.de.valid
    requires Refinement.AbsPc(Top.Next(Leap, s, QUIET).core) == Wrap(s.core.de.pc + 16)
    ensures Refinement.Redirected(Datapath.RedirectsOf(s.core, Datapath.ExecOf(s.core, Clint.Mtip(s.mem.timer)), false))
  {
    hide Refinement.Inv, Datapath.ExecOf, Leap, Isa.Decode, Isa.ExceptionOf, Isa.NextPc, Controller.JumpOf,
      Datapath.Next, Datapath.RedirectsOf, Refinement.Redirected, Datapath.PcNext, Refinement.AbsRegs,
      Top.NextMem;
    LeapDecodes(Refinement.Abs(s));
    LeapIsNoEbreak(s);
    Refinement.PcAfterCommit(Leap, s.core, Top.InputsOf(Leap, s, QUIET));
    assert Wrap(s.core.de.pc + 16) != Add(s.core.de.pc, 4);
  }

  /** From reset, an external halt on the fourth edge of this program falls on the bubble behind the
      taken branch: the next instruction is at 16, and the debugger is told to resume at 0. */
  lemma HaltLosesBranchTarget(rf: RegFile.Regs, ram: Dmem.Ram, haltAddr: Word)
    ensures var s0 := Top.ResetState(rf, ram);
            var s3 := Run(Leap, s0, [QUIET, QUIET, QUIET]);
            && Refinement.Abs(s3).pc == 16
            && Top.Next(Leap, s3, Top.Pins(true, haltAddr)).core.dbg.dpc == 0
  {
    hide Leap, Refinement.Inv, Refinement.Abs, Top.Next, Datapath.EnterDebug, Isa.Step, Datapath.ExecOf,
      Refinement.Redirected, Datapath.PcNext;
    var s0 := Top.ResetState(rf, ram);
    var s1 := Top.Next(Leap, s0, QUIET);
    var s2 := Top.Next(Leap, s1, QUIET);
    Refinement.ResetInv(Leap, rf);
    BubblesDoNotHalt(Leap, s0);
    Transparency.BubbleEdge(Leap, s0, QUIET);
    BubblesDoNotHalt(Leap, s1);
    Transparency.BubbleEdge(Leap, s1, QUIET);
    Transparency.RunThree(Leap, s0, QUIET, QUIET, QUIET);
    AbsFields(s0);
    AbsFields(s1);
    AbsFields(s2);
    Transparency.AbsPcOfValid(s2);
    LeapCommits(s2);
    Refinement.HaltAfterRedirect(Leap, s2, QUIET, Top.Pins(true, haltAddr));
  }

  lemma AbsFields(s: Top.Sys)
    ensures Refinement.Abs(s).csrs == s.core.csrs && Refinement.Abs(s).dbg == s.core.dbg
    ensures s.core == Datapath.ResetState(s.core.rf) ==> Refinement.Abs(s).pc == 0
  {
    hide Refinement.AbsRegs, Top.NextMem;
  }

  // ---- running a concrete program from reset, under constant pins ----

  function Held(p: Top.Pins, n: nat): seq<Top.Pins> { seq(n, _ => p) }

  ghost predicate Reached(imem: Top.Imem, s0: Top.Sys, p: Top.Pins, s: Top.Sys) {
    exists n: nat :: s == Run(imem, s0, Held(p, n))
  }

  lemma ReachedNext(imem: Top.Imem, s0: Top.Sys, p: Top.Pins, s: Top.Sys)
    requires Reached(imem, s0, p, s)
    ensures Reached(imem, s0, p, Top.Next(imem, s, p))
  {
    hide Top.Next, Run;
    var n: nat :| s == Run(imem, s0, Held(p, n));
    assert Held(p, n + 1) == Held(p, n) + [p];
    RunSnoc(imem, s0, Held(p, n), p);
  }

  /** Equal but for the timer's count and the transmit pulse. */
  predicate SameButTime(a: Isa.Arch, b: Isa.Arch) {
    && a.pc == b.pc && a.regs == b.regs && a.csrs == b.csrs && a.dbg == b.dbg
    && a.mem.ram == b.mem.ram && a.mem.timer.mtimecmp == b.mem.timer.mtimecmp
  }

  /** Waiting out the bubbles until execute holds an instruction. */
  lemma {:induction false} Settle(imem: Top.Imem, s0: Top.Sys, s: Top.Sys, p: Top.Pins) returns (t: Top.Sys)
    requires Reached(imem, s0, p, s) && Refinement.Inv(imem, s.core) && !p.debugReq
    ensures Reached(imem, s0, p, t) && Refinement.Inv(imem, t.core) && t.core.de.valid
    ensures SameButTime(Refinement.Abs(s), Refinement.Abs(t))
    ensures t == s || t.mem.timer.mtimecmp == Refinement.Abs(t).mem.timer.mtimecmp
    decreases Rank(s.core)
  {
    hide Refinement.Inv, Refinement.Abs, Top.Next, Datapath.EnterDebug, Reached;
    if s.core.de.valid {
      t := s;
    } else {
      var s' := Top.Next(imem, s, p);
      BubblesDoNotHalt(imem, s);
      Transparency.BubbleEdge(imem, s, p);
      ReachedNext(imem, s0, p, s);
      Transparency.NextMemIsMem(imem, s, p);
      t := Settle(imem, s0, s', p);
    }
  }

  /** One instruction of the program: the next one reaches execute with exactly its effect behind it.
      The timer compare value that the core sees is at most one store behind. */
  lemma Advance(imem: Top.Imem, s0: Top.Sys, s: Top.Sys, p: Top.Pins) returns (t: Top.Sys)
    requires Reached(imem, s0, p, s) && Refinement.Inv(imem, s.core) && s.core.de.valid && !p.debugReq
    requires !Refinement.Abs(s).csrs.mie
    ensures Reached(imem, s0, p, t) && Refinement.Inv(imem, t.core) && t.core.de.valid
    ensures SameButTime(
              Isa.Step(Refinement.Abs(s), imem(Refinement.Abs(s).pc), Refinement.EnvOf(s, p)), Refinement.Abs(t))
    ensures t.mem.timer.mtimecmp in {Refinement.Abs(s).mem.timer.mtimecmp, Refinement.Abs(t).mem.timer.mtimecmp}
  {
    hide Refinement.Inv, Refinement.Abs, Top.Next, Isa.Step, Reached, Refinement.EnvOf;
    var s' := Top.Next(imem, s, p);
    AbsFields(s);
    Transparency.AbsPcIs(s);
    Refinement.StepRefines(imem, s, p);
    Refinement.InvNext(imem, s, p);
    ReachedNext(imem, s0, p, s);
    Transparency.NextMemIsMem(imem, s, p);
    t := Settle(imem, s0, s', p);
  }

  /** The first instruction from reset. */
  lemma Start(imem: Top.Imem, rf: RegFile.Regs, ram: Dmem.Ram, p: Top.Pins) returns (t: Top.Sys)
    requires !p.debugReq
    ensures Reached(imem, Top.ResetState(rf, ram), p, t) && Refinement.Inv(imem, t.core) && t.core.de.valid
    ensures var a := Refinement.Abs(t); a.pc == 0 && a.csrs == CsrFile.RESET && !a.dbg.parked
  {
    hide Refinement.Inv, Refinement.Abs, Run;
    var s0 := Top.ResetState(rf, ram);
    NoRun(Top.ResetState(rf, ram), imem);
    assert Held(p, 0) == [];
    assert s0 == Run(imem, s0, Held(p, 0));
    Refinement.ResetInv(imem, rf);
    AbsFields(s0);
    t := Settle(imem, s0, s0, p);
  }

  lemma NoRun(s: Top.Sys, imem: Top.Imem)
    ensures Run(imem, s, []) == s
  {}

  // ---- the resume race ----

  /** Arm the timer and enable its interrupt, park at an ebreak, and in debug mode enable interrupts
      right before the dret. */
  function RaceProgram(pc: Word): Word {
    if pc == 0 then 0x0002_00B7         // lui    x1, 0x20
    else if pc == 4 then 0x0000_A223    // sw     x0, 4(x1)
    else if pc == 8 then 0x0800_0113    // addi   x2, x0, 128
    else if pc == 12 then 0x3041_1073   // csrrw  x0, mie, x2
    else if pc == 16 then 0x0010_0073   // ebreak
    else if pc == 20 then 0x3004_6073   // csrrsi x0, mstatus, 8
    else 0x7B20_0073                    // dret
  }

  /** No debug request at all; the halt address is that of the csrrsi. */
  const PARK: Top.Pins := Top.Pins(false, 20)

  lemma RaceDecodes()
    ensures Isa.Decode(RaceProgram(0)) == Isa.Lui(1, 0x20)
    ensures Isa.Decode(RaceProgram(4)) == Isa.Store(Isa.W32, 1, 0, 4)
    ensures Isa.Decode(RaceProgram(8)) == Isa.OpImm(Isa.AddK, 2, 0, 128)
  {}

  lemma RaceSystemDecodes()
    ensures Isa.Decode(RaceProgram(12)) == Isa.CsrAccess(Isa.Swap, 0, CSR_MIE, Isa.FromReg(2))
    ensures Isa.Decode(RaceProgram(16)).Ebreak?
    ensures Isa.Decode(RaceProgram(20)) == Isa.CsrAccess(Isa.SetBits, 0, CSR_MSTATUS, Isa.FromImm(8))
    ensures Isa.Decode(RaceProgram(24)).Dret?
  {}

  /** What holds before instruction `k` of the program. */
  predicate Stage(k: nat, a: Isa.Arch) {
    && k <= 6 && a.pc == 4 * k
    && (k >= 1 ==> a.regs[1] == CLINT_BASE) && (k >= 2 ==> a.mem.timer.mtimecmp == 0)
    && (k >= 3 ==> a.regs[2] == 128) && (k >= 4 ==> a.csrs.mtie)
    && a.csrs.mie == (k == 6) && a.dbg.parked == (k >= 5)
  }

  lemma StageStep(k: nat, a: Isa.Arch, e: Isa.Env)
    requires Stage(k, a) && k < 6 && !e.debugReq && e.haltAddr == 20
    ensures Stage(k + 1, Isa.Step(a, RaceProgram(a.pc), e))
  {
    hide Isa.Decode, RaceProgram, Isa.Step, Stage;
    assert a.pc == 4 * k by {
      StageFacts(k, a);
    }
    RaceDecodes();
    RaceSystemDecodes();
    if k == 0 || k == 2 {
      ConstantStage(k, a, RaceProgram(a.pc), e);
    } else if k == 1 {
      StoreStage(a, RaceProgram(a.pc), e);
    } else if k == 4 {
      EbreakStage(a, RaceProgram(a.pc), e);
    } else {
      CsrStage(k, a, RaceProgram(a.pc), e);
    }
  }

  lemma ConstantStage(k: nat, a: Isa.Arch, w: Word, e: Isa.Env)
    requires Stage(k, a) && !e.debugReq
    requires
      || (k == 0 && Isa.Decode(w) == Isa.Lui(1, 0x20))
      || (k == 2 && Isa.Decode(w) == Isa.OpImm(Isa.AddK, 2, 0, 128))
    ensures Stage(k + 1, Isa.Step(a, w, e))
  {
    hide Isa.Decode;
  }

  lemma StoreStage(a: Isa.Arch, w: Word, e: Isa.Env)
    requires Stage(1, a) && !e.debugReq && Isa.Decode(w) == Isa.Store(Isa.W32, 1, 0, 4)
    ensures Stage(2, Isa.Step(a, w, e))
  {
    hide Isa.Decode, Isa.StoreBytes;
    assert Isa.Address(a, 1, 4) == CLINT_BASE + 4;
  }

  lemma EbreakStage(a: Isa.Arch, w: Word, e: Isa.Env)
    requires Stage(4, a) && e.haltAddr == 20 && Isa.Decode(w).Ebreak?
    ensures Stage(5, Isa.Step(a, w, e))
  {
    hide Isa.Decode;
  }

  lemma CsrStage(k: nat, a: Isa.Arch, w: Word, e: Isa.Env)
    requires Stage(k, a) && !e.debugReq
    requires
      || (k == 3 && Isa.Decode(w) == Isa.CsrAccess(Isa.Swap, 0, CSR_MIE, Isa.FromReg(2)))
      || (k == 5 && Isa.Decode(w) == Isa.CsrAccess(Isa.SetBits, 0, CSR_MSTATUS, Isa.FromImm(8)))
    ensures Stage(k + 1, Isa.Step(a, w, e))
  {
    hide Isa.Decode, Bitwise;
    SetsMie(CsrFile.Read(a.csrs, CSR_MSTATUS, e.mtip));
  }

  lemma SetsMie(v: Word)
    ensures Bitwise(OrGate, v, 8) / 8 % 2 == 1
  {
    hide Combine;
    assert Pow2(3) == 8;
    CombineBit(OrGate, v, 8, 32, 3);
  }

  lemma StageStarts(a: Isa.Arch)
    requires a.pc == 0 && a.csrs == CsrFile.RESET && !a.dbg.parked
    ensures Stage(0, a)
  {}

  lemma StageFacts(k: nat, a: Isa.Arch)
    requires Stage(k, a)
    ensures a.pc == 4 * k && (k < 6 ==> !a.csrs.mie)
    ensures k >= 2 ==> a.mem.timer.mtimecmp == 0
  {}

  lemma StageKept(k: nat, a: Isa.Arch, b: Isa.Arch)
    requires Stage(k, a) && SameButTime(a, b)
    ensures Stage(k, b)
  {}

  /** The core before instruction `k`, from reset. */
  lemma {:induction false} ReachStage(rf: RegFile.Regs, ram: Dmem.Ram, k: nat) returns (s: Top.Sys)
    requires k <= 6
    ensures Reached(RaceProgram, Top.ResetState(rf, ram), PARK, s)
    ensures Refinement.Inv(RaceProgram, s.core) && s.core.de.valid && Stage(k, Refinement.Abs(s))
    ensures k >= 3 ==> s.mem.timer.mtimecmp == 0
  {
    hide Refinement.Inv, Refinement.Abs, Isa.Step, Stage, Reached, RaceProgram, Refinement.EnvOf, SameButTime;
    if k == 0 {
      s := Start(RaceProgram, rf, ram, PARK);
      StageStarts(Refinement.Abs(s));
    } else {
      var s' := ReachStage(rf, ram, k - 1);
      var a, e := Refinement.Abs(s'), Refinement.EnvOf(s', PARK);
      StageFacts(k - 1, a);
      EnvFields(s', PARK);
      StageStep(k - 1, a, e);
      s := Advance(RaceProgram, Top.ResetState(rf, ram), s', PARK);
      StageKept(k, Isa.Step(a, RaceProgram(a.pc), e), Refinement.Abs(s));
      StageFacts(k, Refinement.Abs(s));
    }
  }

  lemma EnvFields(s: Top.Sys, p: Top.Pins)
    ensures Refinement.EnvOf(s, p).debugReq == p.debugReq && Refinement.EnvOf(s, p).haltAddr == p.haltAddr
  {}

  lemma RaceAtTheEnd(s: Top.Sys)
    requires Refinement.Inv(RaceProgram, s.core) && s.core.de.valid && Stage(6, Refinement.Abs(s))
    requires s.mem.timer.mtimecmp == 0
    ensures Refinement.ResumeRace(s)
  {
    hide Controller.ControlOf, Controller.ImmOf, Controller.JumpOf, Isa.Decode, Refinement.AbsRegs,
      Top.NextMem, RaceProgram;
    AbsFields(s);
    RaceSystemDecodes();
    Refinement.DebugDecode(RaceProgram(24));
  }

  /** After `n` edges from the state `s0` the race is on, and its edge is neither the resume nor the
      interrupt. */
  ghost predicate RacesAfter(s0: Top.Sys, n: nat) {
    var s := Run(RaceProgram, s0, Held(PARK, n));
    && Refinement.ResumeRace(s)
    && Refinement.Abs(Top.Next(RaceProgram, s, PARK)) !=
       Isa.Step(Refinement.Abs(s), Refinement.WordAt(RaceProgram, s), Refinement.EnvOf(s, PARK))
  }

  /** From reset, whatever the registers and RAM hold and without any debug request, this program
      brings the core to a dret that leaves debug mode with an enabled timer interrupt due. */
  lemma ResumeRaceHappens(rf: RegFile.Regs, ram: Dmem.Ram)
    ensures exists n: nat :: RacesAfter(Top.ResetState(rf, ram), n)
  {
    hide Refinement.Inv, Refinement.Abs, Top.Next, Isa.Step, Stage, Refinement.ResumeRace, Run, RaceProgram;
    var s := ReachStage(rf, ram, 6);
    RaceAtTheEnd(s);
    Refinement.StepRefines(RaceProgram, s, PARK);
    var n: nat :| s == Run(RaceProgram, Top.ResetState(rf, ram), Held(PARK, n));
    assert RacesAfter(Top.ResetState(rf, ram), n);
  }

  // ---- an mepc with low bits ----

  /** Read mepc with a CSRRS of x0, then jump to an address that is not a multiple of four and trap
      there, with the vector back at the start. */
  function LowBitsProgram(pc: Word): Word {
    if pc == 0 then 0x3410_2073         // csrrs x0, mepc, x0
    else if pc == 4 then 0x00A0_0067    // jalr  x0, 10(x0)
    else 0                              // illegal
  }

  lemma LowBitsDecodes()
    ensures Isa.Decode(LowBitsProgram(0)) == Isa.CsrAccess(Isa.SetBits, 0, CSR_MEPC, Isa.FromReg(0))
    ensures Isa.Decode(LowBitsProgram(4)) == Isa.Jalr(0, 0, 10)
    ensures Isa.Decode(LowBitsProgram(10)) == Isa.Illegal
  {}

  /** What holds before the `k`-th instruction that reaches execute. */
  predicate Lap(k: nat, a: Isa.Arch) {
    && !a.csrs.mie && !a.dbg.parked && a.csrs.mtvec == 0
    && (k == 0 ==> a.pc == 0 && a.csrs.mepc == 0) && (k == 1 ==> a.pc == 4) && (k == 2 ==> a.pc == 10)
    && (k == 3 ==> a.pc == 0 && a.csrs.mepc == 10)
  }

  lemma LapStep(k: nat, a: Isa.Arch, w: Word, e: Isa.Env)
    requires Lap(k, a) && k < 3 && w == LowBitsProgram(a.pc) && !e.debugReq
    ensures Lap(k + 1, Isa.Step(a, w, e))
  {
    hide Isa.Decode, LowBitsProgram, Bitwise, Isa.StepMem;
    LowBitsDecodes();
    if k == 0 {
      Transparency.BitwiseIdentities(0);
    }
  }

  lemma LapFacts(k: nat, a: Isa.Arch, b: Isa.Arch)
    ensures Lap(k, a) ==> !a.csrs.mie
    ensures Lap(k, a) && SameButTime(a, b) ==> Lap(k, b)
    ensures a.pc == 0 && a.csrs == CsrFile.RESET && !a.dbg.parked ==> Lap(0, a)
  {}

  lemma {:induction false} ReachLap(rf: RegFile.Regs, ram: Dmem.Ram, k: nat) returns (s: Top.Sys)
    requires k <= 3
    ensures Reached(LowBitsProgram, Top.ResetState(rf, ram), QUIET, s)
    ensures Refinement.Inv(LowBitsProgram, s.core) && s.core.de.valid && Lap(k, Refinement.Abs(s))
  {
    hide Refinement.Inv, Refinement.Abs, Isa.Step, Lap, Reached, LowBitsProgram, Refinement.EnvOf,
      SameButTime;
    if k == 0 {
      s := Start(LowBitsProgram, rf, ram, QUIET);
      LapFacts(0, Refinement.Abs(s), Refinement.Abs(s));
    } else {
      var s' := ReachLap(rf, ram, k - 1);
      var a, e := Refinement.Abs(s'), Refinement.EnvOf(s', QUIET);
      LapFacts(k - 1, a, a);
      EnvFields(s', QUIET);
      LapStep(k - 1, a, LowBitsProgram(a.pc), e);
      s := Advance(LowBitsProgram, Top.ResetState(rf, ram), s', QUIET);
      LapFacts(k, Isa.Step(a, LowBitsProgram(a.pc), e), Refinement.Abs(s));
    }
  }

  /** After `n` edges a CSRRS with operand x0 is in execute, and its edge changes mepc. */
  ghost predicate ReadWritesMepc(s0: Top.Sys, n: nat) {
    var s := Run(LowBitsProgram, s0, Held(QUIET, n));
    && s.core.de.valid
    && Isa.Decode(Refinement.WordAt(LowBitsProgram, s)) == Isa.CsrAccess(Isa.SetBits, 0, CSR_MEPC, Isa.FromReg(0))
    && s.core.csrs.mepc == 10 && Top.Next(LowBitsProgram, s, QUIET).core.csrs.mepc == 8
  }

  lemma LowBitsCleared(a: Isa.Arch, w: Word, e: Isa.Env)
    requires Lap(3, a) && !e.debugReq
    requires Isa.Decode(w) == Isa.CsrAccess(Isa.SetBits, 0, CSR_MEPC, Isa.FromReg(0))
    ensures Isa.Step(a, w, e).csrs.mepc == 8
  {
    hide Isa.Decode, Bitwise, Isa.StepMem;
    Transparency.BitwiseIdentities(10);
  }

  /** From reset, whatever the registers and RAM hold, this program reaches a read of mepc that
      should not write it, and clears its low bits. */
  lemma ReadOfMepcWrites(rf: RegFile.Regs, ram: Dmem.Ram)
    ensures exists n: nat :: ReadWritesMepc(Top.ResetState(rf, ram), n)
  {
    hide Refinement.Inv, Refinement.Abs, Top.Next, Isa.Step, Refinement.ResumeRace, Run, LowBitsProgram,
      Isa.Decode;
    var s := ReachLap(rf, ram, 3);
    AbsFields(s);
    AbsFields(Top.Next(LowBitsProgram, s, QUIET));
    Transparency.AbsPcIs(s);
    LowBitsDecodes();
    EnvFields(s, QUIET);
    LowBitsCleared(Refinement.Abs(s), LowBitsProgram(0), Refinement.EnvOf(s, QUIET));
    RaceNeedsMie(s);
    Refinement.StepRefines(LowBitsProgram, s, QUIET);
    var n: nat :| s == Run(LowBitsProgram, Top.ResetState(rf, ram), Held(QUIET, n));
    assert ReadWritesMepc(Top.ResetState(rf, ram), n);
  }

  lemma RaceNeedsMie(s: Top.Sys)
    ensures Refinement.ResumeRace(s) ==> s.core.csrs.mie
  {}
}
