/** Running a safe program on the sequential machine: it never traps, only moves forward, keeps its
    stores inside the data window, and behaves the same on split and on unified memory and from any
    initial registers. */
module SafeRuns {
  import opened Words
  import opened Rv32iPkg
  import opened SafeProgram
  import Dmem
  import Isa
  import MemBus

  // ---- RAM accesses that do not wrap ----

  lemma {:induction false} LoadAgrees(m: Dmem.Ram, m': Dmem.Ram, a: nat, n: nat)
    requires a + n <= |m| && a + n <= |m'| && forall j: nat :: a <= j < a + n ==> m[j] == m'[j]
    ensures Isa.LoadBytes(m, a, n) == Isa.LoadBytes(m', a, n)
    decreases n
  {
    if n > 0 {
      SmallIndex(a, |m|);
      SmallIndex(a, |m'|);
      LoadAgrees(m, m', a + 1, n - 1);
    }
  }

  lemma SmallIndex(a: nat, size: int)
    requires a < size
    ensures a % size == a
  {
    DivUnique(a, size, 0, a);
  }

  /** A store keeps every byte outside its range, and agreement between two RAMs. */
  lemma {:induction false} StoreAgrees(m: Dmem.Ram, m': Dmem.Ram, a: nat, v: nat, n: nat)
    requires a + n <= |m| && a + n <= |m'|
    ensures var r, r' := Isa.StoreBytes(m, a, v, n), Isa.StoreBytes(m', a, v, n);
            && (forall j: nat :: j < |m| && (j < a || a + n <= j) ==> r[j] == m[j])
            && (forall j: nat :: j < |m| && j < |m'| && m[j] == m'[j] ==> r[j] == r'[j])
    decreases n
  {
    if n > 0 {
      SmallIndex(a, |m|);
      SmallIndex(a, |m'|);
      var m1, m1' := m[a := v % 256], m'[a := v % 256];
      var r, r' := Isa.StoreBytes(m1, a + 1, v / 256, n - 1), Isa.StoreBytes(m1', a + 1, v / 256, n - 1);
      assert Isa.StoreBytes(m, a, v, n) == r && Isa.StoreBytes(m', a, v, n) == r';
      hide Isa.StoreBytes;
      StoreAgrees(m1, m1', a + 1, v / 256, n - 1);
      assert forall j: nat :: j < |m| && j != a ==> m1[j] == m[j];
      assert forall j: nat :: j < |m| && j < |m'| && m[j] == m'[j] ==> m1[j] == m1'[j];
    }
  }

  // ---- where a program is ----

  /** The registers whose values the program has defined before word `i`. */
  predicate Known(i: nat, r: Reg) { r == 0 || (r == 1 && i >= BODY_BASE) || (2 <= r <= 30 && r < i + 2) }

  predicate SourcesKnown(i: nat, d: Isa.Instr) {
    match d
    case Op(_, _, rs1, rs2) => Known(i, rs1) && Known(i, rs2)
    case OpImm(_, _, rs1, _) => Known(i, rs1)
    case Load(_, _, _, rs1, _) => Known(i, rs1)
    case Store(_, rs1, rs2, _) => Known(i, rs1) && Known(i, rs2)
    case Branch(_, rs1, rs2, _) => Known(i, rs1) && Known(i, rs2)
    case Jalr(_, rs1, _) => Known(i, rs1)
    case Jal(_, _) => true
    case Lui(_, _) => true
    case Auipc(_, _) => true
    case _ => false
  }

  /** What an instruction of the program may write: its share of the prologue, x2..x30, x0, and
      x31 only as the sentinel. */
  predicate DestinationOk(n: nat, i: nat, rd: Reg) {
    rd == 0 || (i < 29 && rd == i + 2) || (i == 29 && rd == 1) || (BODY_BASE <= i && 2 <= rd <= 30) ||
    (i == n - 1 && rd == 31)
  }

  /** The instruction at word `i` as the proofs below use it. */
  ghost predicate Usable(p: seq<Word>, i: nat, d: Isa.Instr) {
    && SourcesKnown(i, d) && DestinationOk(|p|, i, Destination(d))
    && (d.Load? ==> i >= BODY_BASE && d.rs1 == DATA_BASE_GPR && InWindow(d.width, d.off))
    && (d.Store? ==> i >= BODY_BASE && d.rs1 == DATA_BASE_GPR && InWindow(d.width, d.off))
    && (d.Branch? || d.Jal? || d.Jalr? ==> OkOffset(d.off) && BODY_BASE <= i < |p| - TAIL)
    && (d.Jalr? ==> i > BODY_BASE && 2 <= d.rs1 <= 30 && Isa.Decode(p[i - 1]) == Isa.Auipc(d.rs1, 0))
    && (Target(d, i).Some? ==>
          i < Target(d, i).value < |p| - 1 && !Isa.Decode(p[Target(d, i).value]).Jalr?)
    && (i == 29 ==> d == Isa.OpImm(Isa.AddK, DATA_BASE_GPR, 0, DataBase(|p|)))
    && (i == |p| - 1 ==> d == Isa.OpImm(Isa.AddK, COMPLETION_GPR, 0, COMPLETION_VALUE))
  }

  lemma SafeIsUsable(p: seq<Word>, i: nat)
    requires Safe(p) && i < |p|
    ensures Usable(p, i, Isa.Decode(p[i]))
  {
    hide Isa.Decode;
    if i < 29 {
      assert SetsConstant(p[i], i + 2, 0);
    } else if BODY_BASE <= i < |p| - TAIL {
      assert SafeAt(p, i);
    } else if |p| - TAIL <= i < |p| - 1 {
      assert SetsConstant(p[i], 0, 0);
    }
  }

  /** A state about to execute word `i`: not in debug mode, interrupts off, the data base in place,
      and at a JALR with the address of its AUIPC in the base register. */
  ghost predicate At(p: seq<Word>, i: nat, a: Isa.Arch) {
    && i < |p| && a.pc == 4 * i && !a.dbg.parked && !a.csrs.mie && |a.mem.ram| >= 2048
    && (i >= BODY_BASE ==> Isa.Reg(a, DATA_BASE_GPR) == DataBase(|p|))
    && (Isa.Decode(p[i]).Jalr? ==> Isa.Reg(a, Isa.Decode(p[i]).rs1) == 4 * (i - 1))
  }

  predicate QuietEnv(e: Isa.Env) { !e.debugReq }

  lemma SmallProgram(p: seq<Word>)
    requires Safe(p)
    ensures 4 * |p| + 256 <= DataBase(|p|) <= 1792 && DataBase(|p|) % 256 == 0
  {
    hide DataBase;
    DataBaseClearsCode(|p|);
  }

  lemma WindowAddress(p: seq<Word>, i: nat, a: Isa.Arch, w: Isa.Width, off: int)
    requires Safe(p) && At(p, i, a) && i >= BODY_BASE && InWindow(w, off)
    ensures Isa.Address(a, DATA_BASE_GPR, off) == DataBase(|p|) + off
    ensures Isa.Aligned(w, DataBase(|p|) + off) && Isa.Start(w, DataBase(|p|) + off) == DataBase(|p|) + off
    ensures DataBase(|p|) + off + Isa.Size(w) <= 2048
    ensures !MemBus.IsClint(DataBase(|p|) + off) && !MemBus.IsUart(DataBase(|p|) + off)
  {
    hide Isa.Decode, Safe, DataBase, Wrap, Isa.Reg, Isa.Aligned;
    SmallProgram(p);
    assert Isa.Reg(a, DATA_BASE_GPR) == DataBase(|p|);
    WrapNoop(DataBase(|p|) + off);
    AlignedInWindow(DataBase(|p|), w, off);
  }

  lemma AlignedInWindow(base: nat, w: Isa.Width, off: int)
    requires base % 256 == 0 && base <= 1792 && InWindow(w, off)
    ensures Isa.Aligned(w, base + off)
  {}

  /** No instruction of a safe program halts, faults or is interrupted. */
  lemma NeverTraps(p: seq<Word>, i: nat, a: Isa.Arch, e: Isa.Env)
    requires Safe(p) && At(p, i, a) && QuietEnv(e)
    ensures Isa.Executes(a, p[i], e)
  {
    hide Isa.Decode, Safe, Isa.Address, Isa.Aligned;
    SafeIsUsable(p, i);
    var d := Isa.Decode(p[i]);
    if d.Load? || d.Store? {
      WindowAddress(p, i, a, d.width, d.off);
    }
  }

  function NextIndex(p: seq<Word>, i: nat, a: Isa.Arch): int
    requires i < |p|
  {
    Isa.NextPc(a, p[i]) / 4
  }

  lemma ForwardPc(i: nat, off: int)
    requires i < 0x1000 && 0 <= off <= 48 && off % 4 == 0
    ensures Wrap(4 * i + off) == 4 * (i + off / 4)
  {}

  /** Control only moves forward, stays inside the program until the sentinel, and never lands on a
      JALR except from its AUIPC. */
  lemma MovesForward(p: seq<Word>, i: nat, a: Isa.Arch)
    requires Safe(p) && At(p, i, a) && i < |p| - 1
    ensures var j := NextIndex(p, i, a);
            && Isa.NextPc(a, p[i]) == 4 * j && i < j < |p| && (i < BODY_BASE ==> j == i + 1)
            && (Isa.Decode(p[j]).Jalr? ==> j == i + 1 && Isa.Decode(p[i]) == Isa.Auipc(Isa.Decode(p[j]).rs1, 0))
  {
    hide Isa.Decode, Safe, Isa.Holds, Wrap, DataBase, SourcesKnown, DestinationOk, Destination, InWindow;
    SmallProgram(p);
    SafeIsUsable(p, i);
    SafeIsUsable(p, i + 1);
    PlainSources(i, Isa.Decode(p[i]));
    ForwardPc(i, 4);
    var d := Isa.Decode(p[i]);
    if d.Branch? || d.Jal? {
      ForwardPc(i, d.off);
    } else if d.Jalr? {
      ForwardPc(i - 1, d.off);
    }
  }

  predicate Plain(d: Isa.Instr) {
    !d.CsrAccess? && !d.Mret? && !d.Dret? && !d.Ebreak? && !d.Ecall? && !d.Illegal?
  }

  lemma WriteGoesTo(a: Isa.Arch, w: Word, mtip: bool)
    requires Plain(Isa.Decode(w))
    ensures var x := Isa.WriteOf(a, w, mtip);
            if x.Some? then x.value.rd == Destination(Isa.Decode(w)) else Destination(Isa.Decode(w)) == 0
  {
    hide Isa.Decode, Isa.ReadMem, Isa.Compute, Wrap, Isa.Address;
  }

  lemma PlainSources(i: nat, d: Isa.Instr)
    ensures SourcesKnown(i, d) ==> Plain(d)
  {}

  /** Registers other than the destination keep their values. */
  lemma OthersKept(a: Isa.Arch, w: Word, e: Isa.Env, r: Reg)
    requires Plain(Isa.Decode(w)) && (r != Destination(Isa.Decode(w)) || r == 0)
    ensures Isa.Reg(Isa.Executed(a, w, e), r) == Isa.Reg(a, r)
  {
    hide Isa.Decode, Isa.WriteOf, Isa.NextPc, Isa.NextCsrs, Isa.StepMem;
    WriteGoesTo(a, w, e.mtip);
  }

  lemma StepMemSize(m: MemBus.Mem, s: Isa.Option<Isa.StoreReq>)
    ensures |Isa.StepMem(m, s).ram| == |m.ram|
  {}

  lemma NextIsAt(p: seq<Word>, i: nat, a: Isa.Arch, e: Isa.Env)
    requires Safe(p) && At(p, i, a) && i < |p| - 1
    ensures NextIndex(p, i, a) > i && At(p, NextIndex(p, i, a), Isa.Executed(a, p[i], e))
  {
    hide Isa.Decode, Safe, Isa.NextPc, Isa.StepMem, Isa.WriteOf, SourcesKnown, Isa.SetReg;
    var a', j := Isa.Executed(a, p[i], e), NextIndex(p, i, a);
    SafeIsUsable(p, i);
    PlainSources(i, Isa.Decode(p[i]));
    MovesForward(p, i, a);
    StepMemSize(a.mem, Isa.StoreOf(a, p[i]));
    BaseKept(p, i, a, e);
    if Isa.Decode(p[j]).Jalr? {
      SafeIsUsable(p, j);
      PairBase(p, i, a, e, Isa.Decode(p[j]).rs1);
    }
  }

  lemma BaseKept(p: seq<Word>, i: nat, a: Isa.Arch, e: Isa.Env)
    requires Safe(p) && At(p, i, a) && i < |p| - 1
    ensures i >= 29 ==> Isa.Reg(Isa.Executed(a, p[i], e), DATA_BASE_GPR) == DataBase(|p|)
  {
    hide Isa.Decode, Safe, Isa.NextPc, Isa.StepMem, SourcesKnown, Isa.Compute, DataBase, Isa.ReadMem,
      Isa.NextCsrs;
    SafeIsUsable(p, i);
    SmallProgram(p);
    PlainSources(i, Isa.Decode(p[i]));
    if i == 29 {
      ConstantLands(DataBase(|p|));
    } else if i >= BODY_BASE {
      OthersKept(a, p[i], e, DATA_BASE_GPR);
    }
  }

  lemma PairBase(p: seq<Word>, i: nat, a: Isa.Arch, e: Isa.Env, rt: Reg)
    requires i < |p| && a.pc == 4 * i && rt != 0 && Isa.Decode(p[i]) == Isa.Auipc(rt, 0)
    ensures Isa.Reg(Isa.Executed(a, p[i], e), rt) == 4 * i
  {
    hide Isa.Decode, Isa.NextPc, Isa.StepMem, Isa.NextCsrs, Wrap;
    AuipcHere(a.pc);
  }

  lemma ConstantLands(v: int)
    requires 0 <= v < 0x1_0000_0000
    ensures Isa.Compute(Isa.AddK, 0, Wrap(v)) == v
  {}

  lemma AuipcHere(pc: Word)
    ensures Wrap(pc + 0 * 0x1000) == pc
  {}

  // ---- two machines side by side ----

  ghost predicate SameKnown(i: nat, a: Isa.Arch, u: Isa.Arch) {
    forall r: Reg :: Known(i, r) ==> Isa.Reg(a, r) == Isa.Reg(u, r)
  }

  /** The two RAMs hold the same bytes in the program's data window. */
  ghost predicate SameWindow(p: seq<Word>, m: Dmem.Ram, m': Dmem.Ram) {
    && |m| >= 2048 && |m'| >= 2048
    && forall j: nat :: DataBase(|p|) <= j < DataBase(|p|) + 256 && j < 2048 ==> m[j] == m'[j]
  }

  /** The RAM holds the program image from address zero. */
  ghost predicate Image(p: seq<Word>, m: Dmem.Ram) {
    && |m| >= 2048
    && forall i: nat :: i < |p| ==> Isa.LoadBytes(m, 4 * i, 4) == p[i]
  }

  /** Two machines about to execute word `i`, with equal defined registers and data windows; the
      second also holds the program in the memory it stores to. */
  ghost predicate Twin(p: seq<Word>, i: nat, a: Isa.Arch, u: Isa.Arch) {
    At(p, i, a) && At(p, i, u) && SameKnown(i, a, u) && SameWindow(p, a.mem.ram, u.mem.ram) && Image(p, u.mem.ram)
  }

  /** Outside the device windows a load depends on the bytes it covers alone. */
  lemma SameBytesRead(m: MemBus.Mem, m': MemBus.Mem, w: Isa.Width, signExtend: bool, a: Word)
    requires !MemBus.IsClint(a) && !MemBus.IsUart(a)
    requires Isa.LoadBytes(m.ram, Isa.Start(w, a), Isa.Size(w)) == Isa.LoadBytes(m'.ram, Isa.Start(w, a), Isa.Size(w))
    ensures Isa.ReadMem(m, w, signExtend, a) == Isa.ReadMem(m', w, signExtend, a)
  {
    hide Isa.LoadBytes, Isa.Start, Isa.Size;
  }

  lemma LoadsAgree(p: seq<Word>, i: nat, a: Isa.Arch, u: Isa.Arch)
    requires Safe(p) && Twin(p, i, a, u) && Isa.Decode(p[i]).Load?
    ensures var d := Isa.Decode(p[i]);
            Isa.ReadMem(a.mem, d.width, d.signExtend, Isa.Address(a, d.rs1, d.off)) ==
            Isa.ReadMem(u.mem, d.width, d.signExtend, Isa.Address(u, d.rs1, d.off))
  {
    hide Isa.Decode, Safe, DataBase, Isa.LoadBytes, Isa.Address, Isa.Start, Isa.Size, Isa.ReadMem, InWindow,
      Image, SameKnown;
    SmallProgram(p);
    SafeIsUsable(p, i);
    var d := Isa.Decode(p[i]);
    WindowAddress(p, i, a, d.width, d.off);
    WindowAddress(p, i, u, d.width, d.off);
    WindowBounds(p, d.width, d.off);
    LoadAgrees(a.mem.ram, u.mem.ram, DataBase(|p|) + d.off, Isa.Size(d.width));
    SameBytesRead(a.mem, u.mem, d.width, d.signExtend, DataBase(|p|) + d.off);
  }

  lemma WindowBounds(p: seq<Word>, w: Isa.Width, off: int)
    requires InWindow(w, off)
    ensures 0 <= off && off + Isa.Size(w) <= 256
  {}

  /** Both machines write, store and go on identically. */
  lemma EffectsAgree(p: seq<Word>, i: nat, a: Isa.Arch, u: Isa.Arch, e: Isa.Env, e': Isa.Env)
    requires Safe(p) && Twin(p, i, a, u)
    ensures Isa.WriteOf(a, p[i], e.mtip) == Isa.WriteOf(u, p[i], e'.mtip)
    ensures Isa.StoreOf(a, p[i]) == Isa.StoreOf(u, p[i])
    ensures Isa.NextPc(a, p[i]) == Isa.NextPc(u, p[i])
  {
    hide Isa.Decode, Safe, DataBase, Isa.ReadMem, Isa.Compute, Wrap, Isa.Holds, Known, Image, SameWindow;
    SafeIsUsable(p, i);
    if Isa.Decode(p[i]).Load? {
      LoadsAgree(p, i, a, u);
    }
  }

  /** A store of the program stays in the data window: code and the rest of memory are untouched. */
  lemma StoresStayInWindow(p: seq<Word>, i: nat, a: Isa.Arch)
    requires Safe(p) && At(p, i, a)
    ensures var m, m' := a.mem.ram, Isa.StepMem(a.mem, Isa.StoreOf(a, p[i])).ram;
            && |m'| == |m|
            && forall j: nat :: j < |m| && (j < DataBase(|p|) || DataBase(|p|) + 256 <= j) ==> m'[j] == m[j]
  {
    hide Isa.Decode, Safe, DataBase, Isa.StoreBytes, Isa.Address, Isa.Start, Isa.Size, Wrap;
    SmallProgram(p);
    SafeIsUsable(p, i);
    var d := Isa.Decode(p[i]);
    if d.Store? {
      WindowAddress(p, i, a, d.width, d.off);
      WindowBounds(p, d.width, d.off);
      StoreAgrees(a.mem.ram, a.mem.ram, DataBase(|p|) + d.off, Isa.Reg(a, d.rs2), Isa.Size(d.width));
    }
  }

  lemma WindowsAgreeAfter(p: seq<Word>, i: nat, a: Isa.Arch, u: Isa.Arch)
    requires Safe(p) && Twin(p, i, a, u)
    ensures SameWindow(p, Isa.StepMem(a.mem, Isa.StoreOf(a, p[i])).ram, Isa.StepMem(u.mem, Isa.StoreOf(u, p[i])).ram)
  {
    hide Isa.Decode, Safe, DataBase, Isa.StoreBytes, Isa.Address, Isa.Start, Isa.Size, Wrap, Known, Image;
    SmallProgram(p);
    SafeIsUsable(p, i);
    EffectsAgree(p, i, a, u, Isa.Env(false, false, 0), Isa.Env(false, false, 0));
    var d := Isa.Decode(p[i]);
    if d.Store? {
      var addr, v, n := DataBase(|p|) + d.off, Isa.Reg(a, d.rs2), Isa.Size(d.width);
      WindowAddress(p, i, a, d.width, d.off);
      WindowBounds(p, d.width, d.off);
      StoreAgrees(a.mem.ram, u.mem.ram, addr, v, n);
      assert Isa.StepMem(a.mem, Isa.StoreOf(a, p[i])).ram == Isa.StoreBytes(a.mem.ram, addr, v, n);
      assert Isa.StepMem(u.mem, Isa.StoreOf(u, p[i])).ram == Isa.StoreBytes(u.mem.ram, addr, v, n);
    } else {
      assert Isa.StoreOf(a, p[i]).None?;
    }
  }

  /** The program image survives every store of the program. */
  lemma ImageKept(p: seq<Word>, i: nat, u: Isa.Arch)
    requires Safe(p) && At(p, i, u) && Image(p, u.mem.ram)
    ensures Image(p, Isa.StepMem(u.mem, Isa.StoreOf(u, p[i])).ram)
  {
    hide Isa.Decode, Safe, DataBase, Isa.StepMem, Isa.StoreOf, Isa.LoadBytes;
    SmallProgram(p);
    StoresStayInWindow(p, i, u);
    var m' := Isa.StepMem(u.mem, Isa.StoreOf(u, p[i])).ram;
    forall k: nat | k < |p| ensures Isa.LoadBytes(m', 4 * k, 4) == p[k] {
      LoadAgrees(u.mem.ram, m', 4 * k, 4);
    }
  }

  lemma KnownGrows(p: seq<Word>, i: nat, j: nat, r: Reg)
    requires Safe(p) && i < j < |p| && (i < BODY_BASE ==> j == i + 1) && Known(j, r)
    ensures Known(i, r) || r == Destination(Isa.Decode(p[i]))
  {
    hide Isa.Decode;
    if i < 29 {
      assert SetsConstant(p[i], i + 2, 0);
    }
  }

  lemma RegistersAgreeAfter(p: seq<Word>, i: nat, a: Isa.Arch, u: Isa.Arch, e: Isa.Env, e': Isa.Env)
    requires Safe(p) && Twin(p, i, a, u) && i < |p| - 1
    ensures SameKnown(NextIndex(p, i, a), Isa.Executed(a, p[i], e), Isa.Executed(u, p[i], e'))
  {
    hide Isa.Decode, Safe, Isa.WriteOf, Isa.NextPc, Isa.NextCsrs, Isa.StepMem, Known, SameWindow, Image,
      SourcesKnown;
    SafeIsUsable(p, i);
    PlainSources(i, Isa.Decode(p[i]));
    EffectsAgree(p, i, a, u, e, e');
    MovesForward(p, i, a);
    var j: nat := NextIndex(p, i, a);
    forall r: Reg | Known(j, r) ensures Isa.Reg(Isa.Executed(a, p[i], e), r) == Isa.Reg(Isa.Executed(u, p[i], e'), r) {
      KnownGrows(p, i, j, r);
      if r != Destination(Isa.Decode(p[i])) || r == 0 {
        OthersKept(a, p[i], e, r);
        OthersKept(u, p[i], e', r);
      } else {
        WriteGoesTo(a, p[i], e.mtip);
      }
    }
  }

  /** One instruction of a safe program, on the two machines: both execute it, both retire the same
      record, and both are again side by side further on. */
  lemma TwinStep(p: seq<Word>, i: nat, a: Isa.Arch, u: Isa.Arch, e: Isa.Env, e': Isa.Env)
    requires Safe(p) && Twin(p, i, a, u) && QuietEnv(e) && QuietEnv(e')
    ensures Isa.Executes(a, p[i], e) && Isa.Executes(u, p[i], e')
    ensures Isa.RecordOf(a, p[i], e.mtip) == Isa.RecordOf(u, p[i], e'.mtip)
    ensures i < |p| - 1 ==>
              var j := NextIndex(p, i, a);
              i < j < |p| && Twin(p, j, Isa.Step(a, p[i], e), Isa.Step(u, p[i], e'))
  {
    hide Isa.Decode, Safe, Isa.WriteOf, Isa.StoreOf, Isa.NextPc, Isa.NextCsrs, Isa.StepMem, SameKnown,
      SameWindow, Image, Isa.Trap, Isa.Halt, Isa.Halts, Isa.ExceptionOf, Isa.Interrupted;
    NeverTraps(p, i, a, e);
    NeverTraps(p, i, u, e');
    EffectsAgree(p, i, a, u, e, e');
    if i < |p| - 1 {
      MovesForward(p, i, a);
      NextIsAt(p, i, a, e);
      NextIsAt(p, i, u, e');
      RegistersAgreeAfter(p, i, a, u, e, e');
      WindowsAgreeAfter(p, i, a, u);
      ImageKept(p, i, u);
    }
  }

  /** What the sentinel retires, and that no earlier instruction retires anything like it. */
  lemma SentinelRecord(p: seq<Word>, i: nat, a: Isa.Arch, mtip: bool)
    requires Safe(p) && At(p, i, a)
    ensures var r := Isa.RecordOf(a, p[i], mtip);
            && (i == |p| - 1 ==> r.write == Isa.Some(Isa.RegWrite(31, 0x7FF)) && r.store.None?)
            && (i < |p| - 1 ==> r.write.None? || r.write.value.rd != 31)
            && (r.store.Some? ==> r.store.value.funct3 < 3)
  {
    hide Isa.Decode, Safe, Isa.Compute, Isa.ReadMem, Wrap, Isa.Address, Funct3;
    SafeIsUsable(p, i);
    PlainSources(i, Isa.Decode(p[i]));
    WriteGoesTo(a, p[i], mtip);
    ConstantLands(COMPLETION_VALUE);
    StoreFunct3(p[i]);
  }

  lemma StoreFunct3(w: Word)
    ensures Isa.Decode(w).Store? && !Isa.Decode(w).width.Reserved? ==> Funct3(w) < 3
  {}
}
