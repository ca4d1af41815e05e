/** The lockstep checker (verif/uvm/src/rv32i_scoreboard.svh). */
module Scoreboard {
  import opened Words
  import opened Rv32iPkg
  import Dmem
  import Isa
  import MemoryCorrect

  /** One row of the reference trace. */
  datatype Row = Row(
    pc: Word, instr: Word, rd: Reg, wdata: Word, regwrite: bool,
    storeValid: bool, storeAddr: Word, storeData: Word)

  /** One retirement as the monitor reports it. */
  datatype Txn = Txn(
    pc: Word, instr: Word, rd: Reg, wdata: Word, regwrite: bool,
    storeValid: bool, storeAddr: Word, storeData: Word, storeFunct3: int)

  datatype CheckerState = Active | Finished | Desynced

  datatype Board = Board(retireIndex: nat, numMismatches: nat, checker: CheckerState)

  const START: Board := Board(0, 0, Active)

  /** How many low bits a store of this width keeps, as a modulus; 1 keeps nothing. */
  function StoreModulus(funct3: int): (m: int)
    ensures m > 0
  {
    if funct3 == 0 then 0x100 else if funct3 == 1 then 0x1_0000 else if funct3 == 2 then 0x1_0000_0000 else 1
  }

  predicate LegalWidth(funct3: int) { StoreModulus(funct3) != 1 }

  predicate Completes(t: Txn) { t.regwrite && t.rd == COMPLETION_GPR && t.wdata == COMPLETION_VALUE }

  // ---- what a match is ----

  predicate SameRegister(row: Row, t: Txn) {
    var dut, ref := t.regwrite && t.rd != 0, row.regwrite && row.rd != 0;
    dut == ref && (ref ==> row.rd == t.rd && row.wdata == t.wdata)
  }

  /** The bytes that a store of this width writes, counted by the sequential machine. */
  function StoredBytes(funct3: int): nat { Isa.Size(Isa.StoreWidth(funct3)) }

  /** Both store or neither does, with SB, SH or SW, at the same address and the same stored bytes. */
  predicate SameStore(row: Row, t: Txn) {
    var f3 := Funct3(row.instr);
    t.storeValid == row.storeValid &&
    (row.storeValid ==>
       t.storeFunct3 == f3 && f3 < 3 && row.storeAddr == t.storeAddr &&
       row.storeData % Pow2(8 * StoredBytes(f3)) == t.storeData % Pow2(8 * StoredBytes(f3)))
  }

  predicate Matches(row: Row, t: Txn) {
    row.pc == t.pc && row.instr == t.instr && SameRegister(row, t) && SameStore(row, t)
  }

  // ---- what the checker does ----

  function RegisterErrors(row: Row, t: Txn): nat {
    var dut, ref := t.regwrite && t.rd != 0, row.regwrite && row.rd != 0;
    if dut != ref then 1
    else if ref && (row.rd != t.rd || row.wdata != t.wdata) then 1
    else 0
  }

  function StoreErrors(row: Row, t: Txn): nat {
    var f3 := Funct3(row.instr);
    if t.storeValid != row.storeValid then 1
    else if row.storeValid then
      (if t.storeFunct3 != f3 then 1 else 0) +
      (if !LegalWidth(f3) then 1
       else if row.storeAddr != t.storeAddr || row.storeData % StoreModulus(f3) != t.storeData % StoreModulus(f3) then 1
       else 0)
    else 0
  }

  function Diverged(b: Board): Board { b.(numMismatches := b.numMismatches + 1, checker := Desynced) }

  function Next(reference: seq<Row>, b: Board, t: Txn): Board {
    if b.checker != Active then b
    else if b.retireIndex >= |reference| then Diverged(b)
    else
      var row := reference[b.retireIndex];
      if row.pc != t.pc || row.instr != t.instr then Diverged(b)
      else
        Board(b.retireIndex + 1, b.numMismatches + RegisterErrors(row, t) + StoreErrors(row, t),
          if Completes(t) then Finished else Active)
  }

  class Checker {
    const referenceTrace: seq<Row>
    var retireIndex: nat
    var numMismatches: nat
    var checkerState: CheckerState
    var done: bool

    function State(): Board
      reads this
    {
      Board(retireIndex, numMismatches, checkerState)
    }

    constructor (reference: seq<Row>)
      ensures referenceTrace == reference && State() == START && !done
    {
      referenceTrace := reference;
      retireIndex, numMismatches, checkerState, done := 0, 0, Active, false;
    }

    method Diverge()
      modifies this
      ensures State() == Diverged(old(State())) && done
    {
      numMismatches := numMismatches + 1;
      checkerState := Desynced;
      done := true;
    }

    method Write(t: Txn)
      modifies this
      ensures State() == Next(referenceTrace, old(State()), t)
      ensures done == (old(done) || (old(checkerState).Active? && !checkerState.Active?))
    {
      hide Funct3, StoreModulus;
      if checkerState != Active {
        return;
      }
      if retireIndex >= |referenceTrace| {
        Diverge();
        return;
      }
      var expected := referenceTrace[retireIndex];
      if expected.pc != t.pc {
        Diverge();
        return;
      }
      if expected.instr != t.instr {
        Diverge();
        return;
      }
      var dutWritesReg := t.regwrite && t.rd != 0;
      var refWritesReg := expected.regwrite && expected.rd != 0;
      if dutWritesReg != refWritesReg {
        numMismatches := numMismatches + 1;
      } else if refWritesReg && (expected.rd != t.rd || expected.wdata != t.wdata) {
        numMismatches := numMismatches + 1;
      }
      if t.storeValid != expected.storeValid {
        numMismatches := numMismatches + 1;
      } else if expected.storeValid {
        var expectedFunct3 := Funct3(expected.instr);
        if t.storeFunct3 != expectedFunct3 {
          numMismatches := numMismatches + 1;
        }
        var modulus := StoreModulus(expectedFunct3);
        if modulus == 1 {
          numMismatches := numMismatches + 1;
        } else if expected.storeAddr != t.storeAddr || expected.storeData % modulus != t.storeData % modulus {
          numMismatches := numMismatches + 1;
        }
      }
      retireIndex := retireIndex + 1;
      if t.regwrite && t.rd == COMPLETION_GPR && t.wdata == COMPLETION_VALUE {
        checkerState := Finished;
        done := true;
      }
    }
  }

  // ---- what its verdict means ----

  function Run(reference: seq<Row>, b: Board, ts: seq<Txn>): Board
    decreases |ts|
  {
    if ts == [] then b else Run(reference, Next(reference, b, ts[0]), ts[1..])
  }

  /** The checker's masks keep exactly the bytes that the store writes. */
  lemma MasksKeepStoredBytes(funct3: int)
    requires 0 <= funct3 < 8
    ensures LegalWidth(funct3) <==> funct3 < 3
    ensures funct3 < 3 ==> StoreModulus(funct3) == Pow2(8 * StoredBytes(funct3))
  {
    Pow2Values();
  }

  lemma ErrorsMeanMismatch(row: Row, t: Txn)
    ensures RegisterErrors(row, t) == 0 <==> SameRegister(row, t)
    ensures StoreErrors(row, t) == 0 <==> SameStore(row, t)
    ensures RegisterErrors(row, t) <= 1 && StoreErrors(row, t) <= 2
  {
    hide Funct3, StoredBytes, Pow2, StoreModulus, LegalWidth;
    MasksKeepStoredBytes(Funct3(row.instr));
  }

  /** Two data words have the same stored bytes exactly when storing either leaves every RAM the same. */
  lemma SameBytesSameMemory(a: Word, d: Word, d': Word, funct3: int)
    ensures d % Pow2(8 * StoredBytes(funct3)) == d' % Pow2(8 * StoredBytes(funct3)) <==>
            forall m: Dmem.Ram ::
              Isa.StoreBytes(m, a, d, StoredBytes(funct3)) == Isa.StoreBytes(m, a, d', StoredBytes(funct3))
  {
    hide Isa.StoreBytes, Isa.LoadBytes, Pow2;
    var n := StoredBytes(funct3);
    if d % Pow2(8 * n) == d' % Pow2(8 * n) {
      forall m: Dmem.Ram ensures Isa.StoreBytes(m, a, d, n) == Isa.StoreBytes(m, a, d', n) {
        LowBytesDecide(m, a, d, d', n);
      }
    } else {
      var m: Dmem.Ram := [0, 0, 0, 0];
      MemoryCorrect.LoadAfterStore(m, a, d, n);
      MemoryCorrect.LoadAfterStore(m, a, d', n);
    }
  }

  lemma {:induction false} LowBytesDecide(m: Dmem.Ram, a: nat, v: nat, v': nat, n: nat)
    requires v % Pow2(8 * n) == v' % Pow2(8 * n)
    ensures Isa.StoreBytes(m, a, v, n) == Isa.StoreBytes(m, a, v', n)
    decreases n
  {
    hide Pow2;
    if n > 0 {
      MemoryCorrect.SplitModulus(v, n);
      MemoryCorrect.SplitModulus(v', n);
      var m1 := m[a % |m| := v % 256];
      LowBytesDecide(m1, a + 1, v / 256, v' / 256, n - 1);
    }
  }

  /** After divergence or completion nothing changes the verdict. */
  lemma {:induction false} VerdictIsFinal(reference: seq<Row>, b: Board, ts: seq<Txn>)
    requires b.checker != Active
    ensures Run(reference, b, ts) == b
    decreases |ts|
  {
    if ts != [] {
      VerdictIsFinal(reference, b, ts[1..]);
    }
  }

  lemma {:induction false} MismatchesOnlyGrow(reference: seq<Row>, b: Board, ts: seq<Txn>)
    ensures Run(reference, b, ts).numMismatches >= b.numMismatches
    decreases |ts|
  {
    if ts != [] {
      MismatchesOnlyGrow(reference, Next(reference, b, ts[0]), ts[1..]);
    }
  }

  /** The mismatch count stays within three per retirement plus the divergence, so the 32-bit
      counters of the original cannot wrap on any trace shorter than 2^30 rows. */
  lemma {:induction false} CountersBounded(reference: seq<Row>, b: Board, ts: seq<Txn>)
    requires b.retireIndex <= |reference|
    requires b.numMismatches <= 3 * b.retireIndex + (if b.checker.Desynced? then 1 else 0)
    ensures var r := Run(reference, b, ts);
            r.retireIndex <= |reference| && r.numMismatches <= 3 * |reference| + 1
    decreases |ts|
  {
    if ts != [] {
      var b' := Next(reference, b, ts[0]);
      if b.checker.Active? && b.retireIndex < |reference| {
        ErrorsMeanMismatch(reference[b.retireIndex], ts[0]);
      }
      CountersBounded(reference, b', ts[1..]);
    }
  }

  /** The first `n` retirements match the rows from `k` on, and only the last of them completes. */
  ghost predicate CompletesAfter(reference: seq<Row>, k: nat, ts: seq<Txn>, n: nat) {
    && 0 < n <= |ts| && k + n <= |reference|
    && (forall j :: 0 <= j < n ==> Matches(reference[k + j], ts[j]))
    && (forall j :: 0 <= j < n - 1 ==> !Completes(ts[j]))
    && Completes(ts[n - 1])
  }

  /** An active, clean checker finishes clean if and only if the retirements match row by row up to
      and including one that completes. */
  lemma {:induction false} CleanFinish(reference: seq<Row>, b: Board, ts: seq<Txn>)
    requires b.checker == Active && b.numMismatches == 0
    ensures var r := Run(reference, b, ts);
            r.checker == Finished && r.numMismatches == 0 <==>
            exists n: nat :: CompletesAfter(reference, b.retireIndex, ts, n)
    decreases |ts|
  {
    hide Completes, SameRegister, SameStore, RegisterErrors, StoreErrors;
    var k := b.retireIndex;
    if ts == [] {
    } else {
      var b' := Next(reference, b, ts[0]);
      if k >= |reference| || reference[k].pc != ts[0].pc || reference[k].instr != ts[0].instr {
        VerdictIsFinal(reference, b', ts[1..]);
        FirstMustMatch(reference, k, ts);
      } else {
        ErrorsMeanMismatch(reference[k], ts[0]);
        MismatchesOnlyGrow(reference, b', ts[1..]);
        if !Matches(reference[k], ts[0]) {
          FirstMustMatch(reference, k, ts);
        } else if Completes(ts[0]) {
          VerdictIsFinal(reference, b', ts[1..]);
          assert CompletesAfter(reference, k, ts, 1);
        } else {
          CleanFinish(reference, b', ts[1..]);
          ShiftCompletion(reference, k, ts, b'.retireIndex, ts[1..]);
        }
      }
    }
  }

  lemma FirstMustMatch(reference: seq<Row>, k: nat, ts: seq<Txn>)
    requires ts != [] && (k >= |reference| || !Matches(reference[k], ts[0]))
    ensures !exists n: nat :: CompletesAfter(reference, k, ts, n)
  {
    hide Matches, Completes;
    forall n: nat ensures !CompletesAfter(reference, k, ts, n) {
      if 0 < n <= |ts| && k + n <= |reference| {
        assert !Matches(reference[k + 0], ts[0]);
      }
    }
  }

  lemma ShiftCompletion(reference: seq<Row>, k: nat, ts: seq<Txn>, k': nat, rest: seq<Txn>)
    requires ts != [] && k < |reference| && Matches(reference[k], ts[0]) && !Completes(ts[0])
    requires k' == k + 1 && rest == ts[1..]
    ensures (exists n: nat :: CompletesAfter(reference, k, ts, n)) <==>
            (exists n: nat :: CompletesAfter(reference, k', rest, n))
  {
    hide Matches, Completes;
    if n: nat :| CompletesAfter(reference, k, ts, n) {
      assert n > 1;
      forall j | 0 <= j < n - 1 ensures Matches(reference[k' + j], rest[j]) {
        assert Matches(reference[k + (j + 1)], ts[j + 1]);
      }
      assert CompletesAfter(reference, k', rest, n - 1);
    }
    if n: nat :| CompletesAfter(reference, k', rest, n) {
      forall j | 0 <= j < n + 1 ensures Matches(reference[k + j], ts[j]) {
        if j > 0 {
          assert Matches(reference[k' + (j - 1)], rest[j - 1]);
        }
      }
      assert CompletesAfter(reference, k, ts, n + 1);
    }
  }

  /** A reference trace whose only completing row is its last: x31 is written once, at the end. */
  ghost predicate EndsWithSentinel(reference: seq<Row>) {
    && reference != []
    && (forall j :: 0 <= j < |reference| ==>
          (reference[j].regwrite && reference[j].rd == 31 && reference[j].wdata == 0x7FF <==>
           j == |reference| - 1))
  }

  lemma MatchingCompletion(row: Row, t: Txn)
    requires Matches(row, t)
    ensures Completes(t) <==> row.regwrite && row.rd == 31 && row.wdata == 0x7FF
  {}

  /** The checker finishes with zero mismatches exactly when the retirements match every row of the
      reference trace, up to writes of x0 and the bits a narrow store does not keep. */
  lemma PassMeansWholeTraceMatches(reference: seq<Row>, ts: seq<Txn>)
    requires EndsWithSentinel(reference)
    ensures var r := Run(reference, START, ts);
            r.checker == Finished && r.numMismatches == 0 <==>
            |ts| >= |reference| && forall j :: 0 <= j < |reference| ==> Matches(reference[j], ts[j])
  {
    hide Matches, Completes, Run;
    CleanFinish(reference, START, ts);
    if n: nat :| CompletesAfter(reference, 0, ts, n) {
      assert Matches(reference[0 + (n - 1)], ts[n - 1]);
      MatchingCompletion(reference[n - 1], ts[n - 1]);
      assert n == |reference|;
      forall j | 0 <= j < |reference| ensures Matches(reference[j], ts[j]) {
        assert Matches(reference[0 + j], ts[j]);
      }
    }
    if |ts| >= |reference| && forall j :: 0 <= j < |reference| ==> Matches(reference[j], ts[j]) {
      forall j | 0 <= j < |reference| ensures Completes(ts[j]) <==> j == |reference| - 1 {
        MatchingCompletion(reference[j], ts[j]);
      }
      assert CompletesAfter(reference, 0, ts, |reference|);
    }
  }
}
