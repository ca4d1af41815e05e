/** The two-pass label resolution of the directed-program generators (rtl/testgen/program.py). */
module Assembler {
  import opened Words
  import opened Rv32iPkg
  import opened Encoders
  import Alu
  import Isa

  /** A program line: a finished word, a label, or a word whose encoding waits for a label. */
  datatype Entry =
    | Plain(word: Word)
    | Label(name: string)
    | LazyBranch(f3: F3, rs1: Reg, rs2: Reg, target: string)
    | LazyJal(rd: Reg, target: string)

  /** Words emitted by the entries before position `k`, and their size in bytes. */
  function Count(es: seq<Entry>, k: nat): nat
    requires k <= |es|
  {
    if k == 0 then 0 else Count(es, k - 1) + (if es[k - 1].Label? then 0 else 1)
  }

  function AddrAt(es: seq<Entry>, k: nat): nat
    requires k <= |es|
  {
    4 * Count(es, k)
  }

  /** The label table after the entries before `k`: a later definition replaces an earlier one. */
  function LabelsAt(es: seq<Entry>, k: nat): map<string, nat>
    requires k <= |es|
  {
    if k == 0 then map[]
    else if es[k - 1].Label? then LabelsAt(es, k - 1)[es[k - 1].name := AddrAt(es, k - 1)]
    else LabelsAt(es, k - 1)
  }

  function Labels(es: seq<Entry>): map<string, nat> { LabelsAt(es, |es|) }

  predicate Resolved(es: seq<Entry>, k: nat)
    requires k < |es|
  {
    match es[k]
    case LazyBranch(_, _, _, t) => t in Labels(es)
    case LazyJal(_, t) => t in Labels(es)
    case _ => true
  }

  /** The word entry `k` becomes. */
  function WordOf(es: seq<Entry>, k: nat): Word
    requires k < |es| && !es[k].Label? && Resolved(es, k)
  {
    match es[k]
    case Plain(w) => w
    case LazyBranch(f3, rs1, rs2, t) => AsmB(rs1, rs2, Labels(es)[t] - AddrAt(es, k), f3, OP_BRANCH)
    case LazyJal(rd, t) => AsmJ(rd, Labels(es)[t] - AddrAt(es, k), OP_JAL)
  }

  /** Every emitted word sits at its entry's address. */
  ghost predicate Placed(es: seq<Entry>, words: seq<Word>, k: nat)
    requires k <= |es|
  {
    && |words| == Count(es, k)
    && forall j :: 0 <= j < k && !es[j].Label? ==>
         Count(es, j) < |words| && Resolved(es, j) && words[Count(es, j)] == WordOf(es, j)
  }

  lemma {:induction false} CountMonotone(es: seq<Entry>, j: nat, k: nat)
    requires j <= k <= |es|
    ensures Count(es, j) <= Count(es, k)
    ensures j < k && !es[j].Label? ==> Count(es, j) < Count(es, k)
    decreases k
  {
    if j < k {
      CountMonotone(es, j, k - 1);
    }
  }

  /** The two passes. A reference to a label that is never defined is Python's KeyError. */
  method Assemble(es: seq<Entry>) returns (r: Isa.Option<seq<Word>>)
    ensures r.Some? <==> forall k :: 0 <= k < |es| ==> Resolved(es, k)
    ensures r.Some? ==> Placed(es, r.value, |es|)
  {
    hide AsmB, AsmJ, Placed;
    var addrOf: map<string, nat>, addr := map[], 0;
    for k := 0 to |es|
      invariant addrOf == LabelsAt(es, k) && addr == AddrAt(es, k)
    {
      match es[k]
      case Label(name) => addrOf := addrOf[name := addr];
      case _ => addr := addr + 4;
    }
    var words: seq<Word> := [];
    addr := 0;
    PlacedStart(es);
    for k := 0 to |es|
      invariant addr == AddrAt(es, k) && Placed(es, words, k)
      invariant forall j :: 0 <= j < k ==> Resolved(es, j)
    {
      if !es[k].Label? {
        var w: Word;
        match es[k] {
          case Plain(p) => w := p;
          case LazyBranch(f3, rs1, rs2, t) =>
            if t !in addrOf {
              assert !Resolved(es, k);
              return Isa.None;
            }
            w := AsmB(rs1, rs2, addrOf[t] - addr, f3, OP_BRANCH);
          case LazyJal(rd, t) =>
            if t !in addrOf {
              assert !Resolved(es, k);
              return Isa.None;
            }
            w := AsmJ(rd, addrOf[t] - addr, OP_JAL);
        }
        PlacedStep(es, words, k, w);
        words := words + [w];
        addr := addr + 4;
      } else {
        PlacedLabel(es, words, k);
      }
    }
    return Isa.Some(words);
  }

  lemma PlacedStart(es: seq<Entry>)
    ensures Placed(es, [], 0)
  {}

  lemma CountStep(es: seq<Entry>, k: nat)
    requires k < |es|
    ensures Count(es, k + 1) == Count(es, k) + (if es[k].Label? then 0 else 1)
  {}

  lemma PlacedStep(es: seq<Entry>, words: seq<Word>, k: nat, w: Word)
    requires k < |es| && !es[k].Label? && Resolved(es, k) && w == WordOf(es, k) && Placed(es, words, k)
    ensures Placed(es, words + [w], k + 1)
  {
    hide WordOf, Resolved, Count;
    var ws := words + [w];
    CountStep(es, k);
    forall j | 0 <= j < k + 1 && !es[j].Label?
      ensures Count(es, j) < |ws| && Resolved(es, j) && ws[Count(es, j)] == WordOf(es, j)
    {
      if j < k {
        CountMonotone(es, j, k);
      }
    }
  }

  lemma PlacedLabel(es: seq<Entry>, words: seq<Word>, k: nat)
    requires k < |es| && es[k].Label? && Placed(es, words, k)
    ensures Placed(es, words, k + 1)
  {
    hide WordOf, Resolved, Count;
    CountStep(es, k);
  }

  /** Entry `j` defines the label, and no later one before `k` does. */
  predicate LastDefinition(es: seq<Entry>, k: nat, name: string, j: nat)
    requires k <= |es|
  {
    j < k && es[j] == Label(name) && forall i :: j < i < k ==> es[i] != Label(name)
  }

  /** A label's table entry is the address of its last definition. */
  lemma {:induction false} LabelIsDefined(es: seq<Entry>, k: nat, name: string)
    requires k <= |es| && name in LabelsAt(es, k)
    ensures exists j: nat :: LastDefinition(es, k, name, j) && LabelsAt(es, k)[name] == AddrAt(es, j)
    decreases k
  {
    if es[k - 1] != Label(name) {
      LabelIsDefined(es, k - 1, name);
      var j: nat :| LastDefinition(es, k - 1, name, j) && LabelsAt(es, k - 1)[name] == AddrAt(es, j);
      assert LastDefinition(es, k, name, j) && LabelsAt(es, k)[name] == AddrAt(es, j);
    } else {
      assert LastDefinition(es, k, name, k - 1) && LabelsAt(es, k)[name] == AddrAt(es, k - 1);
    }
  }

  lemma WrapInjective(pc: nat, x: int, y: int)
    requires -0x8000_0000 <= x - y < 0x8000_0000
    ensures Wrap(pc + x) == Wrap(pc + y) <==> x == y
  {
    var q1, q2 := (pc + x) / 0x1_0000_0000, (pc + y) / 0x1_0000_0000;
    assert pc + x == 0x1_0000_0000 * q1 + Wrap(pc + x);
    assert pc + y == 0x1_0000_0000 * q2 + Wrap(pc + y);
  }

  /** The place-value immediate of an encoded branch is the offset reduced to thirteen signed bits. */
  lemma BranchImmediate(f3: F3, rs1: Reg, rs2: Reg, off: int)
    requires off % 2 == 0
    ensures var w := EncB(OP_BRANCH, f3, rs1, rs2, off);
            && Isa.Decode(w) == Isa.Branch(Isa.CondOf(f3), rs1, rs2, Isa.ImmB(w))
            && Isa.ImmB(w) == SignedField(off % 0x2000, 0x1000)
  {
    hide Isa.ImmB, EncB, Opcode, Funct3, Rs1Field, Rs2Field;
    var m := SignedField(off % 0x2000, 0x1000);
    SameBranch(f3, rs1, rs2, off, m);
    RoundTripB(OP_BRANCH, f3, rs1, rs2, m);
  }

  lemma JumpImmediate(rd: Reg, off: int)
    requires off % 2 == 0
    ensures var w := EncJ(OP_JAL, rd, off);
            && Isa.Decode(w) == Isa.Jal(rd, Isa.ImmJ(w))
            && Isa.ImmJ(w) == SignedField(off % 0x20_0000, 0x10_0000)
  {
    hide Isa.ImmJ, EncJ, Opcode, RdField;
    var m := SignedField(off % 0x20_0000, 0x10_0000);
    SameJump(rd, off, m);
    RoundTripJ(OP_JAL, rd, m);
  }

  lemma SameParity(off: int, q: int, v: int, half: int)
    requires off == 2 * half * q + v
    ensures off % 2 == v % 2
  {
    var t := half * q;
    assert off == 2 * t + v;
  }

  lemma SignedResidue(off: int, half: int)
    requires half in {0x1000, 0x10_0000}
    ensures var m := SignedField(off % (2 * half), half);
            m % (2 * half) == off % (2 * half) && (off % 2 == 0 ==> m % 2 == 0)
  {
    var q, v := off / (2 * half), off % (2 * half);
    SameParity(off, q, v, half);
    DivUnique(SignedField(v, half), 2 * half, if v < half then 0 else -1, v);
  }

  lemma SameBranch(f3: F3, rs1: Reg, rs2: Reg, off: int, m: int)
    requires m == SignedField(off % 0x2000, 0x1000)
    ensures EncB(OP_BRANCH, f3, rs1, rs2, off) == EncB(OP_BRANCH, f3, rs1, rs2, m)
    ensures off % 2 == 0 ==> m % 2 == 0
  {
    hide BranchBits, SignedField;
    SignedResidue(off, 0x1000);
  }

  lemma SameJump(rd: Reg, off: int, m: int)
    requires m == SignedField(off % 0x20_0000, 0x10_0000)
    ensures EncJ(OP_JAL, rd, off) == EncJ(OP_JAL, rd, m)
    ensures off % 2 == 0 ==> m % 2 == 0
  {
    hide JumpBits, SignedField;
    SignedResidue(off, 0x10_0000);
  }

  lemma LabelAddress(es: seq<Entry>, name: string, k: nat)
    requires name in Labels(es)
    ensures 0 <= Labels(es)[name] <= AddrAt(es, |es|)
    ensures k <= |es| ==> (Labels(es)[name] - AddrAt(es, k)) % 2 == 0 && AddrAt(es, k) <= AddrAt(es, |es|)
  {
    hide Count, LabelsAt;
    LabelIsDefined(es, |es|, name);
    var j: nat :| LastDefinition(es, |es|, name, j) && Labels(es)[name] == AddrAt(es, j);
    CountMonotone(es, j, |es|);
    if k <= |es| {
      CountMonotone(es, k, |es|);
      EvenDistance(Count(es, j), Count(es, k));
    }
  }

  lemma EvenDistance(a: int, b: int)
    ensures (4 * a - 4 * b) % 2 == 0
  {
    var t := 2 * a - 2 * b;
    assert 4 * a - 4 * b == 2 * t;
  }

  /** A resolved branch, executed at its own address, goes to its label if and only if the distance
      fits the offset field. */
  lemma BranchLands(es: seq<Entry>, k: nat)
    requires k < |es| && Resolved(es, k) && es[k].LazyBranch? && AddrAt(es, |es|) < 0x8000_0000
    ensures var target := Labels(es)[es[k].target];
            var my, w := AddrAt(es, k), WordOf(es, k);
            && Isa.Decode(w) == Isa.Branch(Isa.CondOf(es[k].f3), es[k].rs1, es[k].rs2, Isa.ImmB(w))
            && (Wrap(my + Isa.ImmB(w)) == target <==> -0x1000 <= target - my < 0x1000)
  {
    hide AsmB, EncB, Isa.Decode, Isa.ImmB, Isa.CondOf, AddrAt, Labels, LabelsAt, Wrap, SignedField;
    var LazyBranch(f3, rs1, rs2, t) := es[k];
    LabelAddress(es, t, k);
    var my: int, target: int := AddrAt(es, k), Labels(es)[t];
    BranchAgree(f3, rs1, rs2, target - my);
    BranchImmediate(f3, rs1, rs2, target - my);
    LandsIff(my, target, 0x1000);
  }

  lemma BranchAgree(f3: F3, rs1: Reg, rs2: Reg, off: int)
    ensures AsmB(rs1, rs2, off, f3, OP_BRANCH) == EncB(OP_BRANCH, f3, rs1, rs2, off)
  {
    EncodersAgree(OP_BRANCH, 0, f3, rs1, rs2, 0, off);
  }

  lemma JumpAgree(rd: Reg, off: int)
    ensures AsmJ(rd, off, OP_JAL) == EncJ(OP_JAL, rd, off)
  {
    EncodersAgree(OP_JAL, rd, 0, 0, 0, 0, off);
  }

  /** An offset reduced to its field reaches the target exactly when it fitted in the first place. */
  lemma LandsIff(my: nat, target: nat, half: int)
    requires my < 0x8000_0000 && target < 0x8000_0000 && 0 < half <= 0x10_0000
    ensures Wrap(my + SignedField((target - my) % (2 * half), half)) == target <==> -half <= target - my < half
  {
    var off := target - my;
    hide Wrap, SignedField;
    WrapNoop(target);
    FitsField(off, half);
    var m := SignedField(off % (2 * half), half);
    if -0x8000_0000 <= m - off < 0x8000_0000 {
      WrapInjective(my, m, off);
    } else {
      FarApart(my, m, target);
    }
  }

  lemma FarApart(my: nat, m: int, target: nat)
    requires my < 0x8000_0000 && target < 0x8000_0000 && -0x10_0000 <= m < 0x10_0000
    requires !(-0x8000_0000 <= m - (target - my) < 0x8000_0000)
    ensures Wrap(my + m) != target && m != target - my
  {
    Alu.WrapOnce(my + m);
  }

  /** The same for a resolved JAL. */
  lemma JumpLands(es: seq<Entry>, k: nat)
    requires k < |es| && Resolved(es, k) && es[k].LazyJal? && AddrAt(es, |es|) < 0x8000_0000
    ensures var target := Labels(es)[es[k].target];
            var my, w := AddrAt(es, k), WordOf(es, k);
            && Isa.Decode(w) == Isa.Jal(es[k].rd, Isa.ImmJ(w))
            && (Wrap(my + Isa.ImmJ(w)) == target <==> -0x10_0000 <= target - my < 0x10_0000)
  {
    hide AsmJ, EncJ, Isa.Decode, Isa.ImmJ, AddrAt, Labels, LabelsAt, Wrap, SignedField;
    var LazyJal(rd, t) := es[k];
    LabelAddress(es, t, k);
    var my: int, target: int := AddrAt(es, k), Labels(es)[t];
    JumpAgree(rd, target - my);
    JumpImmediate(rd, target - my);
    LandsIff(my, target, 0x10_0000);
  }

  lemma FitsField(off: int, half: int)
    requires half > 0
    ensures SignedField(off % (2 * half), half) == off <==> -half <= off < half
    ensures -half <= SignedField(off % (2 * half), half) < half
  {
    if -half <= off < half {
      SignRoundTrip(off, half);
    }
  }
}
