/** Generator, pipeline, reference machine and checker together: every generated program, run on the
    pipeline from reset, passes the lockstep check against the trace of a sequential machine with one
    unified memory, whatever the initial registers of either. */
module EndToEnd {
  import opened Words
  import opened Rv32iPkg
  import opened Datapath
  import opened Refinement
  import opened Runs
  import opened SafeProgram
  import opened SafeRuns
  import Clint
  import CsrFile
  import DebugFsm
  import Dmem
  import GenStream
  import Isa
  import MemBus
  import MemoryCorrect
  import RegFile
  import Scoreboard
  import SpikeTrace
  import Top
  import UartTx

  // ---- the reference machine: code and data in one memory ----

  const QUIET: Isa.Env := Isa.Env(false, false, 0)

  function Fetch(u: Isa.Arch): Word { Wrap(Isa.LoadBytes(u.mem.ram, u.pc, 4)) }

  /** Its retirements up to and including the first of the word `stop`, within `fuel` steps. */
  function UnifiedTrace(u: Isa.Arch, stop: Word, fuel: nat): seq<Isa.Record>
    decreases fuel
  {
    if fuel == 0 then []
    else
      var w := Fetch(u);
      var rows := Isa.Retires(u, w, QUIET);
      if rows != [] && w == stop then rows else rows + UnifiedTrace(Isa.Step(u, w, QUIET), stop, fuel - 1)
  }

  lemma FetchesProgram(p: seq<Word>, i: nat, u: Isa.Arch)
    requires Image(p, u.mem.ram) && i < |p| && u.pc == 4 * i
    ensures Fetch(u) == p[i]
  {
    hide Isa.LoadBytes;
  }

  /** Only the last word of a safe program is its sentinel. */
  lemma SentinelIsUnique(p: seq<Word>, i: nat)
    requires Safe(p) && i < |p|
    ensures p[i] == p[|p| - 1] <==> i == |p| - 1
  {
    hide Isa.Decode, Safe, SourcesKnown;
    SafeIsUsable(p, i);
    SafeIsUsable(p, |p| - 1);
  }

  lemma UnifiedStep(p: seq<Word>, i: nat, a: Isa.Arch, u: Isa.Arch, fuel: nat)
    requires Safe(p) && Twin(p, i, a, u)
    ensures UnifiedTrace(u, p[|p| - 1], fuel + 1) ==
            [Isa.RecordOf(u, p[i], false)] +
            (if i == |p| - 1 then [] else UnifiedTrace(Isa.Step(u, p[i], QUIET), p[|p| - 1], fuel))
  {
    hide Safe, Isa.RecordOf, Isa.Step, Isa.Executes, At, SameKnown, SameWindow, Image, Fetch;
    TwinStep(p, i, a, u, QUIET, QUIET);
    assert u.pc == 4 * i && i < |p| by {
      TwinPc(p, i, a, u);
    }
    FetchesProgram(p, i, u);
    SentinelIsUnique(p, i);
  }

  lemma TwinPc(p: seq<Word>, i: nat, a: Isa.Arch, u: Isa.Arch)
    requires Twin(p, i, a, u)
    ensures i < |p| && a.pc == 4 * i && u.pc == 4 * i && !a.dbg.parked
  {}

  // ---- the pipeline along a safe program ----

  /** Instruction memory holds the program from address zero, and anything elsewhere. */
  predicate Loaded(imem: Top.Imem, p: seq<Word>) {
    forall i: nat :: i < |p| && 4 * i < 0x1_0000_0000 ==> imem(4 * i) == p[i]
  }

  predicate NoRequests(ps: seq<Top.Pins>) { forall i :: 0 <= i < |ps| ==> !ps[i].debugReq }

  lemma TwinIdle(p: seq<Word>, i: nat, a: Isa.Arch, u: Isa.Arch)
    requires Twin(p, i, a, u)
    ensures Twin(p, i, Isa.Idle(a), u)
  {
    hide Image, Known, DataBase, Isa.Decode;
  }

  /** Edges until a machine at word `i` has committed the sentinel, at most. */
  function Budget(p: seq<Word>, i: nat, c: Core): int { Rank(c) + 3 * (|p| - 1 - i) + 1 }

  lemma BubbleFollows(p: seq<Word>, imem: Top.Imem, i: nat, s: Top.Sys, u: Isa.Arch, pin: Top.Pins)
    requires Inv(imem, s.core) && Twin(p, i, Abs(s), u) && !pin.debugReq && !s.core.de.valid
    ensures var s' := Top.Next(imem, s, pin);
            && RegularEdge(imem, s, pin) && Inv(imem, s'.core)
            && Twin(p, i, Abs(s'), u) && Rank(s'.core) == Rank(s.core) - 1
            && ActionOf(s, pin) == Quiet && Abs(s') == IsaAct(imem, Abs(s), Quiet)
  {
    hide Inv, Abs, Top.Next, Twin, ResumeRace, Isa.Idle;
    QuietBubble(imem, s, pin);
    BubbleIsQuiet(imem, s, pin);
    BubbleStep(imem, s, pin);
    TwinIdle(p, i, Abs(s), u);
    RankFalls(imem, s, pin);
    InvNext(imem, s, pin);
  }

  lemma QuietBubble(imem: Top.Imem, s: Top.Sys, pin: Top.Pins)
    requires Inv(imem, s.core) && !s.core.de.valid && !pin.debugReq
    ensures !EnterDebug(s.core, pin.debugReq)
  {}

  lemma CommitFollows(p: seq<Word>, imem: Top.Imem, i: nat, s: Top.Sys, u: Isa.Arch, pin: Top.Pins)
    requires Safe(p) && Loaded(imem, p) && Inv(imem, s.core) && Twin(p, i, Abs(s), u)
    requires !pin.debugReq && s.core.de.valid
    ensures var s', act := Top.Next(imem, s, pin), ActionOf(s, pin);
            && RegularEdge(imem, s, pin) && Inv(imem, s'.core) && Rank(s'.core) <= 2
            && Abs(s') == IsaAct(imem, Abs(s), act)
            && act.Commit? && Isa.Executes(Abs(s), imem(Abs(s).pc), act.env)
            && IsaRetires(imem, Abs(s), act) == [Isa.RecordOf(u, p[i], false)]
            && (i < |p| - 1 ==>
                  var j := NextIndex(p, i, Abs(s));
                  i < j < |p| && Twin(p, j, Abs(s'), Isa.Step(u, p[i], QUIET)))
  {
    hide Safe, Inv, Top.Next, Twin, Isa.RecordOf, Isa.Step, Isa.Executes, Clint.Mtip, Bubbles, AbsRegs,
      Top.NextMem;
    var e := EnvOf(s, pin);
    TwinStep(p, i, Abs(s), u, e, QUIET);
    TwinPc(p, i, Abs(s), u);
    SmallProgram(p);
    assert imem(Abs(s).pc) == p[i];
    EdgeRefines(imem, s, pin);
    RankAfterCommit(imem, s, pin);
    BubblesAtMostTwo(s, pin);
  }

  /** Every instruction of the schedule executes: none faults, is interrupted or halts. */
  ghost predicate AllExecute(imem: Top.Imem, a: Isa.Arch, acts: seq<Action>)
    decreases |acts|
  {
    acts == [] || (ExecutesOrQuiet(imem, a, acts[0]) && AllExecute(imem, IsaAct(imem, a, acts[0]), acts[1..]))
  }

  predicate ExecutesOrQuiet(imem: Top.Imem, a: Isa.Arch, act: Action) {
    act.Commit? ==> Isa.Executes(a, imem(a.pc), act.env)
  }

  /** Cutting off the first edge of a run. */
  lemma FirstEdge(imem: Top.Imem, s: Top.Sys, ps: seq<Top.Pins>, t: nat)
    requires ps != [] && t + 1 <= |ps| && RegularEdge(imem, s, ps[0])
    requires Abs(Top.Next(imem, s, ps[0])) == IsaAct(imem, Abs(s), ActionOf(s, ps[0]))
    ensures var s', rest := Top.Next(imem, s, ps[0]), ps[1..];
            && (Regular(imem, s', rest[..t]) ==> Regular(imem, s, ps[..t + 1]))
            && IsaTrace(imem, Abs(s), Actions(imem, s, ps[..t + 1])) ==
               IsaRetires(imem, Abs(s), ActionOf(s, ps[0])) + IsaTrace(imem, Abs(s'), Actions(imem, s', rest[..t]))
            && (AllExecute(imem, Abs(s'), Actions(imem, s', rest[..t])) &&
                ExecutesOrQuiet(imem, Abs(s), ActionOf(s, ps[0])) ==>
                  AllExecute(imem, Abs(s), Actions(imem, s, ps[..t + 1])))
  {
    hide Abs, Top.Next, IsaAct, IsaRetires, ActionOf, RegularEdge, ExecutesOrQuiet;
    var head := ps[..t + 1];
    assert head[0] == ps[0] && head[1..] == ps[1..][..t];
    var acts := Actions(imem, s, head);
    assert acts[0] == ActionOf(s, ps[0]) && acts[1..] == Actions(imem, Top.Next(imem, s, ps[0]), head[1..]);
  }

  /** The first `t` edges meet the debug hypotheses, never trap, and execute exactly the rest of the
      reference trace. */
  ghost predicate FollowsFor(p: seq<Word>, imem: Top.Imem, s: Top.Sys, u: Isa.Arch, ps: seq<Top.Pins>,
      fuel: nat, t: nat)
  {
    && p != [] && 1 <= t <= |ps| && Regular(imem, s, ps[..t])
    && IsaTrace(imem, Abs(s), Actions(imem, s, ps[..t])) == UnifiedTrace(u, p[|p| - 1], fuel)
    && AllExecute(imem, Abs(s), Actions(imem, s, ps[..t]))
  }

  /** From any reachable state side by side with the reference machine, the sentinel commits within
      three edges a word, and until then the pipeline's sequential trace is the reference's. */
  lemma {:induction false} PipelineFollows(p: seq<Word>, imem: Top.Imem, i: nat, s: Top.Sys, u: Isa.Arch,
      ps: seq<Top.Pins>, fuel: nat)
    requires Safe(p) && Loaded(imem, p) && Inv(imem, s.core) && Twin(p, i, Abs(s), u)
    requires NoRequests(ps) && i < |p| && Budget(p, i, s.core) <= |ps| && fuel >= |p| - i
    ensures exists t: nat :: t <= Budget(p, i, s.core) && FollowsFor(p, imem, s, u, ps, fuel, t)
    decreases |ps|
  {
    hide Safe, Inv, Abs, Top.Next, Twin, Isa.RecordOf, Isa.Step, Loaded, RegularEdge, IsaAct, IsaRetires,
      ActionOf, UnifiedTrace, IsaTrace, Actions, Regular, NextIndex, AllExecute, Isa.Executes;
    var s', rest := Top.Next(imem, s, ps[0]), ps[1..];
    assert NoRequests(rest);
    if !s.core.de.valid {
      BubbleFollows(p, imem, i, s, u, ps[0]);
      PipelineFollows(p, imem, i, s', u, rest, fuel);
      var t: nat :| t <= Budget(p, i, s'.core) && FollowsFor(p, imem, s', u, rest, fuel, t);
      FirstEdge(imem, s, ps, t);
      QuietRetiresNothing(imem, Abs(s));
      assert FollowsFor(p, imem, s, u, ps, fuel, t + 1);
    } else {
      CommitFollows(p, imem, i, s, u, ps[0]);
      UnifiedStep(p, i, Abs(s), u, fuel - 1);
      if i == |p| - 1 {
        FirstEdge(imem, s, ps, 0);
        NoEdges(imem, s', rest);
        assert FollowsFor(p, imem, s, u, ps, fuel, 1);
      } else {
        var j: nat := NextIndex(p, i, Abs(s));
        var u' := Isa.Step(u, p[i], QUIET);
        PipelineFollows(p, imem, j, s', u', rest, fuel - 1);
        var t: nat :| t <= Budget(p, j, s'.core) && FollowsFor(p, imem, s', u', rest, fuel - 1, t);
        FirstEdge(imem, s, ps, t);
        assert FollowsFor(p, imem, s, u, ps, fuel, t + 1);
      }
    }
  }

  lemma QuietRetiresNothing(imem: Top.Imem, a: Isa.Arch)
    ensures IsaRetires(imem, a, Quiet) == []
  {}

  lemma NoEdges(imem: Top.Imem, s: Top.Sys, ps: seq<Top.Pins>)
    ensures Regular(imem, s, ps[..0]) && IsaTrace(imem, Abs(s), Actions(imem, s, ps[..0])) == []
    ensures AllExecute(imem, Abs(s), Actions(imem, s, ps[..0]))
  {}

  // ---- from reset ----

  /** A freshly loaded reference machine: at address zero, interrupts off, the program image in its
      one memory, the data window as the pipeline's RAM has it; registers arbitrary. */
  ghost predicate Ready(p: seq<Word>, u: Isa.Arch, ram: Dmem.Ram) {
    && u.pc == 0 && !u.dbg.parked && !u.csrs.mie
    && Image(p, u.mem.ram) && SameWindow(p, ram, u.mem.ram)
  }

  lemma ResetTwin(p: seq<Word>, rf: RegFile.Regs, ram: Dmem.Ram, u: Isa.Arch)
    requires Safe(p) && Ready(p, u, ram)
    ensures Twin(p, 0, Abs(Top.ResetState(rf, ram)), u)
    ensures Rank(ResetState(rf)) == 2 && RetiringM(Top.ResetState(rf, ram)) == []
  {
    hide Isa.Decode, Image, DataBase, Isa.LoadBytes;
    assert SetsConstant(p[0], 2, 0);
    assert Abs(Top.ResetState(rf, ram)).mem.ram == ram;
  }

  lemma {:induction false} ObservedAppend(imem: Top.Imem, s: Top.Sys, ps: seq<Top.Pins>, t: nat)
    requires t < |ps|
    ensures Observed(imem, s, ps[..t + 1]) == Observed(imem, s, ps[..t]) + RetiringW(Run(imem, s, ps[..t + 1]))
    ensures Run(imem, s, ps[..t + 1]) == Top.Next(imem, Run(imem, s, ps[..t]), ps[t])
    decreases t
  {
    hide Top.Next, RetiringW;
    assert ps[..t + 1][1..] == ps[1..][..t];
    if t > 0 {
      assert ps[..t][1..] == ps[1..][..t - 1];
      ObservedAppend(imem, Top.Next(imem, s, ps[0]), ps[1..], t - 1);
    } else {
      assert ps[..1] == [ps[0]] && ps[..0] == [];
    }
  }

  lemma {:induction false} ObservedPrefix(imem: Top.Imem, s: Top.Sys, ps: seq<Top.Pins>, t: nat)
    requires t <= |ps|
    ensures Observed(imem, s, ps[..t]) <= Observed(imem, s, ps)
    decreases t
  {
    hide Top.Next, RetiringW;
    if t > 0 {
      assert ps[..t][1..] == ps[1..][..t - 1];
      ObservedPrefix(imem, Top.Next(imem, s, ps[0]), ps[1..], t - 1);
    }
  }

  /** Nothing halts, faults or is interrupted in the first `t` edges, and one edge later exactly the
      whole reference trace has been observed. */
  ghost predicate ObservedBy(p: seq<Word>, imem: Top.Imem, s: Top.Sys, u: Isa.Arch, ps: seq<Top.Pins>, t: nat) {
    && p != [] && t < |ps| && Observed(imem, s, ps[..t + 1]) == UnifiedTrace(u, p[|p| - 1], |p|)
    && AllExecute(imem, Abs(s), Actions(imem, s, ps[..t]))
  }

  /** Every safe program, run from reset with any register contents and no debug request, retires
      exactly the reference machine's trace up to the sentinel, which commits within three edges per
      program word and is in writeback one edge later; later retirements come after it. */
  lemma PipelineRetiresReference(p: seq<Word>, imem: Top.Imem, rf: RegFile.Regs, ram: Dmem.Ram,
      u: Isa.Arch, ps: seq<Top.Pins>)
    requires Safe(p) && Loaded(imem, p) && Ready(p, u, ram) && NoRequests(ps) && |ps| > 3 * |p|
    ensures exists t: nat :: t <= 3 * |p| && ObservedBy(p, imem, Top.ResetState(rf, ram), u, ps, t)
    ensures UnifiedTrace(u, p[|p| - 1], |p|) <= Observed(imem, Top.ResetState(rf, ram), ps)
  {
    hide Safe, Inv, Abs, Top.Next, Twin, Loaded, UnifiedTrace, IsaTrace, Actions, Regular, RetiringM,
      RetiringW, Run, Observed, Ready, NoRequests;
    var s := Top.ResetState(rf, ram);
    ResetTwin(p, rf, ram, u);
    ResetInv(imem, rf);
    assert |p| > 0 by {
      SafeNonempty(p);
    }
    PipelineFollows(p, imem, 0, s, u, ps, |p|);
    var t: nat :| t <= Budget(p, 0, s.core) && FollowsFor(p, imem, s, u, ps, |p|, t);
    RunRefines(imem, s, ps[..t]);
    var trace := IsaTrace(imem, Abs(s), Actions(imem, s, ps[..t]));
    assert RetiringM(s) + trace == trace;
    ObservedAppend(imem, s, ps, t);
    RetireStep(imem, Run(imem, s, ps[..t]), ps[t]);
    ObservedPrefix(imem, s, ps, t + 1);
    assert ObservedBy(p, imem, s, u, ps, t);
  }

  lemma SafeNonempty(p: seq<Word>)
    requires Safe(p)
    ensures |p| > 0
  {}

  /** The trace ends with the sentinel, whose write of x31 is the only one, and every store in it has
      a width that the checker accepts. */
  ghost predicate WellShaped(rows: seq<Isa.Record>, pc: Word, stop: Word) {
    && rows != [] && rows[0].pc == pc
    && (forall k :: 0 <= k < |rows| ==>
          && (rows[k].instr == stop <==> k == |rows| - 1)
          && (rows[k].write.Some? && rows[k].write.value.rd == COMPLETION_GPR <==> k == |rows| - 1)
          && (rows[k].store.Some? ==> rows[k].store.value.funct3 == Funct3(rows[k].instr) < 3))
    && rows[|rows| - 1].write == Isa.Some(Isa.RegWrite(COMPLETION_GPR, COMPLETION_VALUE))
  }

  lemma RecordIsWellShaped(p: seq<Word>, i: nat, u: Isa.Arch)
    requires Safe(p) && At(p, i, u)
    ensures var r := Isa.RecordOf(u, p[i], false);
            && r.pc == 4 * i && r.instr == p[i]
            && (r.store.Some? ==> r.store.value.funct3 == Funct3(r.instr) < 3)
            && (r.write.Some? && r.write.value.rd == COMPLETION_GPR <==> i == |p| - 1)
            && (i == |p| - 1 ==> r.write == Isa.Some(Isa.RegWrite(COMPLETION_GPR, COMPLETION_VALUE)))
  {
    hide Safe, At, Isa.WriteOf, Isa.StoreOf, Funct3, Isa.Decode;
    SentinelRecord(p, i, u, false);
    assert i < |p| && u.pc == 4 * i by {
      AtPc(p, i, u);
    }
  }

  lemma AtPc(p: seq<Word>, i: nat, u: Isa.Arch)
    requires At(p, i, u)
    ensures i < |p| && u.pc == 4 * i
  {}

  /** Every safe program terminates on the reference machine: the trace reaches the sentinel within
      one retirement per word, and has the shape above. */
  lemma {:induction false} ReferenceTerminates(p: seq<Word>, i: nat, a: Isa.Arch, u: Isa.Arch, fuel: nat)
    requires Safe(p) && Twin(p, i, a, u) && i < |p| && fuel >= |p| - i
    ensures WellShaped(UnifiedTrace(u, p[|p| - 1], fuel), 4 * i, p[|p| - 1])
    ensures |UnifiedTrace(u, p[|p| - 1], fuel)| <= |p| - i
    decreases fuel
  {
    hide Safe, Twin, Isa.RecordOf, Isa.Step, UnifiedTrace, NextIndex, Funct3;
    UnifiedStep(p, i, a, u, fuel - 1);
    assert At(p, i, u) by {
      TwinAt(p, i, a, u);
    }
    RecordIsWellShaped(p, i, u);
    SentinelIsUnique(p, i);
    if i < |p| - 1 {
      TwinStep(p, i, a, u, QUIET, QUIET);
      ReferenceTerminates(p, NextIndex(p, i, a), Isa.Step(a, p[i], QUIET), Isa.Step(u, p[i], QUIET), fuel - 1);
    }
  }

  lemma TwinAt(p: seq<Word>, i: nat, a: Isa.Arch, u: Isa.Arch)
    requires Twin(p, i, a, u)
    ensures At(p, i, u)
  {}

  // ---- against the checker ----

  /** A retirement port value as the monitor reports it, and the record it stands for. */
  function TxnOf(w: MemWb): Scoreboard.Txn {
    Scoreboard.Txn(w.pc, w.instr, w.rd, ResultW(w), w.regWrite, w.memWrite, w.storeAddr, w.storeData, w.funct3)
  }

  function RecordOfTxn(t: Scoreboard.Txn): Isa.Record {
    Isa.Record(t.pc, t.instr, Pending(t.regwrite, t.rd, t.wdata),
      if t.storeValid then Isa.Some(Isa.StoreRow(t.storeAddr, t.storeData, t.storeFunct3)) else Isa.None)
  }

  function Txns(imem: Top.Imem, s: Top.Sys, ps: seq<Top.Pins>): seq<Scoreboard.Txn>
    decreases |ps|
  {
    if ps == [] then []
    else
      var s' := Top.Next(imem, s, ps[0]);
      (if s'.core.mw.valid then [TxnOf(s'.core.mw)] else []) + Txns(imem, s', ps[1..])
  }

  lemma {:induction false} TxnsAreRecords(imem: Top.Imem, s: Top.Sys, ps: seq<Top.Pins>)
    ensures |Txns(imem, s, ps)| == |Observed(imem, s, ps)|
    ensures forall k :: 0 <= k < |Txns(imem, s, ps)| ==> RecordOfTxn(Txns(imem, s, ps)[k]) == Observed(imem, s, ps)[k]
    decreases |ps|
  {
    hide Top.Next, ResultW;
    if ps != [] {
      TxnsAreRecords(imem, Top.Next(imem, s, ps[0]), ps[1..]);
    }
  }

  /** A reference row that reports a record, with no obligation on writes of x0 nor on the bits that
      a narrow store does not keep. */
  predicate Describes(row: Scoreboard.Row, r: Isa.Record) {
    var writes := r.write.Some? && r.write.value.rd != 0;
    && row.pc == r.pc && row.instr == r.instr
    && (row.regwrite && row.rd != 0) == writes
    && (writes ==> row.rd == r.write.value.rd && row.wdata == r.write.value.value)
    && row.storeValid == r.store.Some?
    && (row.storeValid ==>
          var m := Pow2(8 * Isa.Size(Isa.StoreWidth(r.store.value.funct3)));
          row.storeAddr == r.store.value.addr && row.storeData % m == r.store.value.data % m)
  }

  lemma DescribedMatches(row: Scoreboard.Row, t: Scoreboard.Txn)
    requires Describes(row, RecordOfTxn(t))
    requires t.storeValid ==> t.storeFunct3 == Funct3(t.instr) < 3
    ensures Scoreboard.Matches(row, t)
  {
    hide Funct3;
  }

  /** The main result: for every safe program, and so for every program the generator emits, the lockstep
      checker fed by the pipeline finishes with zero mismatches against the reference machine's
      trace, whatever the initial registers on both sides and whatever memory holds elsewhere. */
  lemma LockstepPasses(p: seq<Word>, imem: Top.Imem, rf: RegFile.Regs, ram: Dmem.Ram, u: Isa.Arch, ps: seq<Top.Pins>,
      reference: seq<Scoreboard.Row>)
    requires Safe(p) && Loaded(imem, p) && Ready(p, u, ram) && NoRequests(ps) && |ps| > 3 * |p|
    requires |reference| == |UnifiedTrace(u, p[|p| - 1], |p|)|
    requires forall k :: 0 <= k < |reference| ==> Describes(reference[k], UnifiedTrace(u, p[|p| - 1], |p|)[k])
    ensures var verdict := Scoreboard.Run(reference, Scoreboard.START, Txns(imem, Top.ResetState(rf, ram), ps));
            verdict.checker == Scoreboard.Finished && verdict.numMismatches == 0
  {
    hide Safe, Twin, UnifiedTrace, Observed, Txns, Scoreboard.Run, Scoreboard.Matches, Funct3, Ready, Loaded,
      NoRequests;
    SafeNonempty(p);
    var s := Top.ResetState(rf, ram);
    var trace, txns := UnifiedTrace(u, p[|p| - 1], |p|), Txns(imem, s, ps);
    PipelineRetiresReference(p, imem, rf, ram, u, ps);
    ResetTwin(p, rf, ram, u);
    ReferenceTerminates(p, 0, Abs(s), u, |p|);
    TxnsAreRecords(imem, s, ps);
    SentinelEndsReference(reference, trace, p[|p| - 1]);
    forall k | 0 <= k < |reference| ensures Scoreboard.Matches(reference[k], txns[k]) {
      assert RecordOfTxn(txns[k]) == trace[k];
      DescribedMatches(reference[k], txns[k]);
    }
    Scoreboard.PassMeansWholeTraceMatches(reference, txns);
  }

  lemma SentinelEndsReference(reference: seq<Scoreboard.Row>, trace: seq<Isa.Record>, stop: Word)
    requires WellShaped(trace, 0, stop) && |reference| == |trace|
    requires forall k :: 0 <= k < |reference| ==> Describes(reference[k], trace[k])
    ensures Scoreboard.EndsWithSentinel(reference)
  {
    hide Funct3;
  }

  /** Trimming the simulator's log succeeds and gives that reference: boot rows away from address zero
      are dropped, and whatever runs after the sentinel is not included. */
  lemma TrimmedLogIsReference(p: seq<Word>, ram: Dmem.Ram, rf: RegFile.Regs, u: Isa.Arch,
      boot: seq<Scoreboard.Row>, program: seq<Scoreboard.Row>, rest: seq<Scoreboard.Row>,
      r: Isa.Option<seq<Scoreboard.Row>>)
    requires Safe(p) && Ready(p, u, ram)
    requires |program| == |UnifiedTrace(u, p[|p| - 1], |p|)|
    requires forall k :: 0 <= k < |program| ==> Describes(program[k], UnifiedTrace(u, p[|p| - 1], |p|)[k])
    requires forall k :: 0 <= k < |boot| ==> boot[k].pc != SpikeTrace.ENTRY_PC && boot[k].instr != p[|p| - 1]
    requires SpikeTrace.Trimmed(boot + program + rest, p[|p| - 1], r)
    ensures r == Isa.Some(program)
  {
    hide Safe, Twin, UnifiedTrace, Funct3, Ready;
    ResetTwin(p, rf, ram, u);
    SafeNonempty(p);
    var trace := UnifiedTrace(u, p[|p| - 1], |p|);
    ReferenceTerminates(p, 0, Abs(Top.ResetState(rf, ram)), u, |p|);
    forall k | 0 <= k < |program| ensures program[k].instr == p[|p| - 1] <==> k == |program| - 1 {
      assert Describes(program[k], trace[k]);
    }
    assert Describes(program[0], trace[0]);
    SpikeTrace.CutIsTheProgram(boot, program, rest, p[|p| - 1], r);
  }

  // ---- generator, simulator and checker in one ----

  /** A simulator's log of the program: boot rows, rows that describe the trace of the reference
      machine `u`, and whatever retires after the sentinel. */
  ghost predicate LogParts(log: seq<Scoreboard.Row>, p: seq<Word>, u: Isa.Arch,
      boot: seq<Scoreboard.Row>, program: seq<Scoreboard.Row>, rest: seq<Scoreboard.Row>)
  {
    && p != [] && log == boot + program + rest
    && |program| == |UnifiedTrace(u, p[|p| - 1], |p|)|
    && (forall k :: 0 <= k < |program| ==> Describes(program[k], UnifiedTrace(u, p[|p| - 1], |p|)[k]))
    && (forall k :: 0 <= k < |boot| ==> boot[k].pc != SpikeTrace.ENTRY_PC && boot[k].instr != p[|p| - 1])
  }

  ghost predicate IsLogOf(log: seq<Scoreboard.Row>, p: seq<Word>, u: Isa.Arch) {
    exists boot, program, rest :: LogParts(log, p, u, boot, program, rest)
  }

  ghost predicate CleanRun(imem: Top.Imem, rf: RegFile.Regs, ram: Dmem.Ram, ps: seq<Top.Pins>,
      reference: seq<Scoreboard.Row>)
  {
    var verdict := Scoreboard.Run(reference, Scoreboard.START, Txns(imem, Top.ResetState(rf, ram), ps));
    verdict.checker == Scoreboard.Finished && verdict.numMismatches == 0
  }

  /** Every pipeline run of the program that is long enough passes the check against the reference,
      from any register file and from any RAM that agrees with `ram` on the data window. */
  ghost predicate PassesLockstep(p: seq<Word>, ram: Dmem.Ram, reference: seq<Scoreboard.Row>) {
    forall imem: Top.Imem, rf: RegFile.Regs, ram': Dmem.Ram, ps: seq<Top.Pins> ::
      Loaded(imem, p) && SameWindow(p, ram, ram') && NoRequests(ps) && |ps| > 3 * |p| ==>
        CleanRun(imem, rf, ram', ps, reference)
  }

  /** For a safe program, trimming the simulator's log succeeds and every pipeline run passes against
      what it leaves. */
  lemma TrimmedLogPasses(p: seq<Word>, ram: Dmem.Ram, u: Isa.Arch, log: seq<Scoreboard.Row>,
      r: Isa.Option<seq<Scoreboard.Row>>)
    requires Safe(p) && Ready(p, u, ram) && IsLogOf(log, p, u)
    requires p != [] && SpikeTrace.Trimmed(log, p[|p| - 1], r)
    ensures r.Some? && PassesLockstep(p, ram, r.value)
  {
    hide Safe, Ready, UnifiedTrace, SpikeTrace.Trimmed, Describes, Loaded, NoRequests, SameWindow;
    var boot, program, rest :| LogParts(log, p, u, boot, program, rest);
    var rf: RegFile.Regs := seq(32, _ => 0);
    TrimmedLogIsReference(p, ram, rf, u, boot, program, rest, r);
    forall imem: Top.Imem, rf: RegFile.Regs, ram': Dmem.Ram, ps: seq<Top.Pins>
      | Loaded(imem, p) && SameWindow(p, ram, ram') && NoRequests(ps) && |ps| > 3 * |p|
      ensures CleanRun(imem, rf, ram', ps, program)
    {
      OtherRam(p, u, ram, ram');
      LockstepPasses(p, imem, rf, ram', u, ps, program);
    }
  }

  lemma OtherRam(p: seq<Word>, u: Isa.Arch, ram: Dmem.Ram, ram': Dmem.Ram)
    requires Ready(p, u, ram) && SameWindow(p, ram, ram')
    ensures Ready(p, u, ram')
  {
    hide Image;
  }

  /** The generator's main program, with the simulator as a parameter. For every random choice, if
      there is a program it is safe and legal, and if the simulator behaves as the reference machine
      on it, there is a trace, against which every pipeline run of the program passes. */
  method GenerateAndTrace(rng: GenStream.Rng, randomInstrCount: nat, simulate: seq<Word> -> seq<Scoreboard.Row>)
    returns (words: Isa.Option<seq<Word>>, trace: Isa.Option<seq<Scoreboard.Row>>)
    modifies rng
    ensures words.Some? ==> Safe(words.value) && GenStream.AllLegal(words.value)
    ensures words.None? ==> trace.None?
    ensures words.Some? ==>
              forall ram: Dmem.Ram, u: Isa.Arch ::
                Ready(words.value, u, ram) && IsLogOf(simulate(words.value), words.value, u) ==>
                  trace.Some? && PassesLockstep(words.value, ram, trace.value)
  {
    hide Safe, Ready, IsLogOf, PassesLockstep, SpikeTrace.Trimmed;
    ghost var count;
    words, count := GenStream.Generate(rng, randomInstrCount);
    if words.None? {
      return words, Isa.None;
    }
    var p := words.value;
    SafeNonempty(p);
    var log := simulate(p);
    trace := SpikeTrace.Trim(log, p[|p| - 1]);
    forall ram: Dmem.Ram, u: Isa.Arch | Ready(p, u, ram) && IsLogOf(log, p, u)
      ensures trace.Some? && PassesLockstep(p, ram, trace.value)
    {
      TrimmedLogPasses(p, ram, u, log, trace);
    }
  }

  // ---- the reference machine exists, and the registers before reset do not matter ----

  function WordByte(w: Word, k: nat): Byte
    requires k < 4
  {
    if k == 0 then w % 256
    else if k == 1 then w / 0x100 % 256
    else if k == 2 then w / 0x1_0000 % 256
    else w / 0x100_0000
  }

  /** A RAM with the program image below the data and the rest as given. */
  function UnifiedRam(p: seq<Word>, ram: Dmem.Ram): Dmem.Ram {
    seq(|ram|, j requires 0 <= j < |ram| => if j < 4 * |p| then WordByte(p[j / 4], j % 4) else ram[j])
  }

  lemma FourBytes(m: Dmem.Ram, a: nat, w: Word)
    requires a + 4 <= |m| && forall k: nat :: k < 4 ==> m[a + k] == WordByte(w, k)
    ensures Isa.LoadBytes(m, a, 4) == w
  {
    hide Isa.LoadBytes, WordByte, Dmem.Concat4, Dmem.Concat2;
    MemoryCorrect.LoadBytes4(m, a);
    SmallIndex(a, |m|);
    SmallIndex(a + 1, |m|);
    SmallIndex(a + 2, |m|);
    SmallIndex(a + 3, |m|);
    assert m[a + 0] == WordByte(w, 0);
    WordBytes(w);
  }

  lemma WordBytes(w: Word)
    ensures Dmem.Concat4(WordByte(w, 3), WordByte(w, 2), WordByte(w, 1), WordByte(w, 0)) == w
  {
    DivDiv(w, 0x100, 0x100);
    DivDiv(w, 0x1_0000, 0x100);
  }

  /** For every safe program and RAM there is a machine with one memory that is ready to run it. */
  lemma ReferenceExists(p: seq<Word>, ram: Dmem.Ram)
    requires Safe(p) && |ram| >= 2048
    ensures exists u: Isa.Arch :: Ready(p, u, ram)
  {
    hide Safe, WordByte, DataBase;
    SmallProgram(p);
    var m := UnifiedRam(p, ram);
    var u := Isa.Arch(0, seq(32, _ => 0), CsrFile.RESET, DebugFsm.RESET, MemBus.Mem(m, Clint.RESET, UartTx.RESET));
    forall i: nat | i < |p| ensures Isa.LoadBytes(m, 4 * i, 4) == p[i] {
      forall k: nat | k < 4 ensures m[4 * i + k] == WordByte(p[i], k) {
        assert (4 * i + k) / 4 == i && (4 * i + k) % 4 == k;
      }
      FourBytes(m, 4 * i, p[i]);
    }
    assert Ready(p, u, ram);
  }

  /** Two observations with the same first `n` rows, the last of them the first sentinel. */
  ghost predicate SharedTrace(obs: seq<Isa.Record>, obs': seq<Isa.Record>, sentinel: Word, n: nat) {
    && 0 < n <= |obs| && n <= |obs'| && obs[..n] == obs'[..n]
    && (forall k :: 0 <= k < n ==> (obs[k].instr == sentinel <==> k == n - 1))
    && obs[n - 1].write == Isa.Some(Isa.RegWrite(COMPLETION_GPR, COMPLETION_VALUE))
  }

  /** The retirement trace of a safe program is the same from any two initial register files and any
      two RAMs that agree on the data window, whatever the lengths of the two runs, up to and
      including the sentinel, which both retire. */
  lemma TraceIgnoresRegisters(p: seq<Word>, imem: Top.Imem, rf: RegFile.Regs, rf': RegFile.Regs,
      ram: Dmem.Ram, ram': Dmem.Ram, ps: seq<Top.Pins>, ps': seq<Top.Pins>)
    requires Safe(p) && Loaded(imem, p) && SameWindow(p, ram, ram')
    requires NoRequests(ps) && |ps| > 3 * |p| && NoRequests(ps') && |ps'| > 3 * |p|
    ensures var obs := Observed(imem, Top.ResetState(rf, ram), ps);
            var obs' := Observed(imem, Top.ResetState(rf', ram'), ps');
            var sentinel := p[|p| - 1];
            exists n: nat :: n <= |p| && SharedTrace(obs, obs', sentinel, n)
  {
    hide Safe, Loaded, NoRequests, Observed, UnifiedTrace, Twin, Ready, ObservedBy, WellShaped,
      SharedTrace, Abs;
    SafeNonempty(p);
    ReferenceExists(p, ram);
    var u :| Ready(p, u, ram);
    OtherRam(p, u, ram, ram');
    PipelineRetiresReference(p, imem, rf, ram, u, ps);
    PipelineRetiresReference(p, imem, rf', ram', u, ps');
    ResetTwin(p, rf, ram, u);
    ReferenceTerminates(p, 0, Abs(Top.ResetState(rf, ram)), u, |p|);
    var obs := Observed(imem, Top.ResetState(rf, ram), ps);
    var obs' := Observed(imem, Top.ResetState(rf', ram'), ps');
    CommonPrefix(UnifiedTrace(u, p[|p| - 1], |p|), obs, obs', p[|p| - 1]);
  }

  lemma CommonPrefix(trace: seq<Isa.Record>, obs: seq<Isa.Record>, obs': seq<Isa.Record>, sentinel: Word)
    requires WellShaped(trace, 0, sentinel) && trace <= obs && trace <= obs'
    ensures SharedTrace(obs, obs', sentinel, |trace|)
  {
    hide Funct3;
  }
}
