/** What the stream generator promises about the programs it emits, stated on their words. */
module SafeProgram {
  import opened Words
  import opened Rv32iPkg
  import Isa

  const DATA_BASE_GPR := 1
  const MAX_BRANCH_OFFSET := 48
  const PAD_WORDS := MAX_BRANCH_OFFSET / 4
  const MEM_GAP_BYTES := 256
  const MAX_ADDI_IMMEDIATE := 2047
  /** Words before the body: one ADDI for each of x2..x30, and one for x1. */
  const BODY_BASE := 30
  /** Words after the body: the padding and the sentinel. */
  const TAIL := PAD_WORDS + 1

  /** The value of x1: past the program image by at least one gap. */
  function DataBase(words: nat): nat { ((words * 4 + 255) / 256 + 1) * 256 }

  predicate FitsAddi(words: nat) { DataBase(words) + MEM_GAP_BYTES - 1 <= MAX_ADDI_IMMEDIATE }

  /** The data base is the multiple of 256 that leaves a gap of 256 to 511 bytes behind the program, and
      it fits its ADDI, with the window above it, for programs of up to 384 words. */
  lemma DataBaseClearsCode(n: nat)
    ensures 4 * n + 256 <= DataBase(n) < 4 * n + 512 && DataBase(n) % 256 == 0
    ensures FitsAddi(n) <==> n <= 384
  {}

  // ---- single instructions ----

  predicate OkDest(r: Reg) { r == 0 || 2 <= r <= 30 }
  predicate OkSrc(r: Reg) { r <= 30 }
  predicate OkOffset(off: int) { off == 16 || off == 32 || off == 48 }

  /** An access inside the data window, aligned to its width. */
  predicate InWindow(w: Isa.Width, off: int) {
    !w.Reserved? && 0 <= off && off + Isa.Size(w) <= MEM_GAP_BYTES && off % Isa.Size(w) == 0
  }

  /** Any instruction of the random body except the second half of an AUIPC+JALR pair. */
  predicate InstrOk(i: Isa.Instr) {
    match i
    case Op(_, rd, rs1, rs2) => OkDest(rd) && OkSrc(rs1) && OkSrc(rs2)
    case OpImm(_, rd, rs1, _) => OkDest(rd) && OkSrc(rs1)
    case Load(w, _, rd, rs1, off) => OkDest(rd) && rs1 == DATA_BASE_GPR && InWindow(w, off)
    case Store(w, rs1, rs2, off) => rs1 == DATA_BASE_GPR && OkSrc(rs2) && InWindow(w, off)
    case Branch(_, rs1, rs2, off) => OkSrc(rs1) && OkSrc(rs2) && OkOffset(off)
    case Jal(rd, off) => OkDest(rd) && OkOffset(off)
    case Lui(rd, _) => OkDest(rd)
    case Auipc(rd, _) => OkDest(rd)
    case _ => false
  }

  /** A JALR directly behind the AUIPC that pins its base to its own address. */
  predicate PairOk(first: Isa.Instr, second: Isa.Instr) {
    second.Jalr? && OkDest(second.rd) && 2 <= second.rs1 <= 30 && OkOffset(second.off) &&
    first == Isa.Auipc(second.rs1, 0)
  }

  function Destination(d: Isa.Instr): Reg {
    match d
    case Op(_, rd, _, _) => rd
    case OpImm(_, rd, _, _) => rd
    case Load(_, _, rd, _, _) => rd
    case Jal(rd, _) => rd
    case Jalr(rd, _, _) => rd
    case Lui(rd, _) => rd
    case Auipc(rd, _) => rd
    case _ => 0
  }

  /** The word is an encoding the unprivileged manual defines: no reserved funct7, width or branch
      condition, and no SYSTEM or FENCE. The core decodes more than this; other machines need not. */
  predicate LegalEncoding(w: Word) {
    var op, f3, f7 := Opcode(w), Funct3(w), Funct7Field(w);
    if op == OP_RTYPE then f7 == 0 || (f7 == 0x20 && (f3 == 0 || f3 == 5))
    else if op == OP_ITYPE then (f3 == 1 ==> f7 == 0) && (f3 == 5 ==> f7 == 0 || f7 == 0x20)
    else if op == OP_LOAD then f3 < 3 || f3 == 4 || f3 == 5
    else if op == OP_STORE then f3 < 3
    else if op == OP_BRANCH then f3 < 2 || 4 <= f3
    else if op == OP_JALR then f3 == 0
    else op == OP_JAL || op == OP_LUI || op == OP_AUIPC
  }

  /** The legal encodings by opcode, funct3 and funct7, in the manual's numbers. */
  lemma LegalInNumbers(w: Word)
    ensures var op, f3, f7 := w % 0x80, w / 0x1000 % 8, w / 0x200_0000;
            LegalEncoding(w) <==>
              || op in {0x37, 0x17, 0x6F} || (op == 0x67 && f3 == 0) || (op == 0x63 && f3 in {0, 1, 4, 5, 6, 7})
              || (op == 0x03 && f3 in {0, 1, 2, 4, 5}) || (op == 0x23 && f3 in {0, 1, 2})
              || (op == 0x13 && f3 in {0, 2, 3, 4, 6, 7})
              || (op == 0x13 && ((f3 == 1 && f7 == 0) || (f3 == 5 && f7 in {0, 0x20})))
              || (op == 0x33 && (f7 == 0 || (f7 == 0x20 && f3 in {0, 5})))
  {}

  /** A legal word means something that no manual leaves open. */
  lemma LegalIsDefined(w: Word)
    requires LegalEncoding(w)
    ensures var d := Isa.Decode(w);
            && !d.Illegal? && !d.CsrAccess? && !d.Ecall? && !d.Ebreak? && !d.Mret? && !d.Dret?
            && (d.Branch? ==> !d.cond.Never?) && (d.Load? || d.Store? ==> !d.width.Reserved?)
  {
    hide Isa.ImmI, Isa.ImmS, Isa.ImmB, Isa.ImmJ, Isa.ImmU, Isa.KindOf;
  }

  // ---- bodies ----

  predicate BodyOk(body: seq<Word>, k: nat)
    requires k < |body|
  {
    InstrOk(Isa.Decode(body[k])) || (k > 0 && PairOk(Isa.Decode(body[k - 1]), Isa.Decode(body[k])))
  }

  /** The place a transfer at position `k` goes to when taken, as a position. */
  function Target(i: Isa.Instr, k: int): (t: Isa.Option<int>) {
    match i
    case Branch(_, _, _, off) => Isa.Some(k + off / 4)
    case Jal(_, off) => Isa.Some(k + off / 4)
    case Jalr(_, _, off) => Isa.Some(k - 1 + off / 4)
    case _ => Isa.None
  }

  /** What the generator's loop keeps: every word is allowed, every transfer's landing place is
      recorded, and no recorded place holds a JALR. Places count from the start of the program. */
  ghost predicate BodyInv(body: seq<Word>, targets: set<nat>) {
    && (forall k: nat :: k < |body| ==> BodyOk(body, k))
    && (forall k: nat :: k < |body| && Target(Isa.Decode(body[k]), k).Some? ==>
          0 <= Target(Isa.Decode(body[k]), k).value && BODY_BASE + Target(Isa.Decode(body[k]), k).value in targets)
    && (forall k: nat :: k < |body| && BODY_BASE + k in targets ==> !Isa.Decode(body[k]).Jalr?)
  }

  lemma AppendWord(body: seq<Word>, targets: set<nat>, w: Word, targets': set<nat>)
    requires BodyInv(body, targets) && InstrOk(Isa.Decode(w))
    requires var t := Target(Isa.Decode(w), |body|);
             targets' == if t.Some? then targets + {BODY_BASE + t.value} else targets
    ensures BodyInv(body + [w], targets')
  {
    hide Isa.Decode;
    var b := body + [w];
    assert forall k: nat :: k < |body| ==> b[k] == body[k];
    assert BodyOk(b, |body|);
    forall k: nat | k < |b| ensures BodyOk(b, k) {
      if k < |body| {
        assert BodyOk(body, k);
      }
    }
  }

  lemma AppendPair(body: seq<Word>, targets: set<nat>, first: Word, second: Word, targets': set<nat>)
    requires BodyInv(body, targets) && InstrOk(Isa.Decode(first)) && PairOk(Isa.Decode(first), Isa.Decode(second))
    requires BODY_BASE + |body| + 1 !in targets
    requires targets' == targets + {BODY_BASE + |body| + Isa.Decode(second).off / 4}
    ensures BodyInv(body + [first, second], targets')
  {
    hide Isa.Decode;
    var b := body + [first, second];
    assert forall k: nat :: k < |body| ==> b[k] == body[k];
    forall k: nat | k < |b| ensures BodyOk(b, k) {
      if k < |body| {
        assert BodyOk(body, k);
      }
    }
  }

  // ---- whole programs ----

  predicate SetsConstant(w: Word, rd: Reg, value: int) {
    Isa.Decode(w) == Isa.OpImm(Isa.AddK, rd, 0, value)
  }

  /** The promise: a zeroing prologue, the data base in x1, an allowed body whose transfers land
      inside the program and never on a JALR, NOP padding, and the sentinel. */
  ghost predicate Safe(p: seq<Word>) {
    && |p| >= BODY_BASE + TAIL && FitsAddi(|p|)
    && (forall i: nat :: i < 29 ==> SetsConstant(p[i], i + 2, 0))
    && SetsConstant(p[29], DATA_BASE_GPR, DataBase(|p|))
    && (forall i: nat :: BODY_BASE <= i < |p| - TAIL ==> SafeAt(p, i))
    && (forall i: nat :: |p| - TAIL <= i < |p| - 1 ==> SetsConstant(p[i], 0, 0))
    && SetsConstant(p[|p| - 1], COMPLETION_GPR, COMPLETION_VALUE)
  }

  ghost predicate SafeAt(p: seq<Word>, i: nat)
    requires 0 < i < |p|
  {
    var d := Isa.Decode(p[i]);
    && (InstrOk(d) || (i > BODY_BASE && PairOk(Isa.Decode(p[i - 1]), d)))
    && (Target(d, i).Some? ==>
          var t := Target(d, i).value;
          i < t < |p| - 1 && !Isa.Decode(p[t]).Jalr?)
  }

  /** The same promise in numbers: 29 words that zero x2..x30, the data base in x1, the body, twelve NOPs,
      and 0x7FF into x31; 384 words at most. */
  lemma SafeInNumbers(p: seq<Word>)
    requires Safe(p)
    ensures 43 <= |p| <= 384
    ensures forall i: nat :: i < 29 ==> Isa.Decode(p[i]) == Isa.OpImm(Isa.AddK, i + 2, 0, 0)
    ensures var d := Isa.Decode(p[29]);
            d.OpImm? && d == Isa.OpImm(Isa.AddK, 1, 0, d.imm) &&
            d.imm % 256 == 0 && 4 * |p| + 256 <= d.imm < 4 * |p| + 512
    ensures forall i: nat :: |p| - 13 <= i < |p| - 1 ==> Isa.Decode(p[i]) == Isa.OpImm(Isa.AddK, 0, 0, 0)
    ensures Isa.Decode(p[|p| - 1]) == Isa.OpImm(Isa.AddK, 31, 0, 0x7FF)
  {
    hide Isa.Decode, SafeAt, DataBase, FitsAddi;
    DataBaseClearsCode(|p|);
    assert forall i: nat :: i < 29 ==> SetsConstant(p[i], i + 2, 0);
    assert forall i: nat :: |p| - 13 <= i < |p| - 1 ==> SetsConstant(p[i], 0, 0);
  }
}
