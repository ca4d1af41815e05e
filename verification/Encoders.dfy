/** The two independent sets of instruction encoders (verif/spike/gen_stream.py and
    rtl/testgen/asm.py). Python's `|` of disjoint fields is written as a sum. */
module Encoders {
  import opened Words
  import opened Rv32iPkg
  import opened Controller
  import ExecuteCorrect
  import Isa

  type Op7 = o: int | 0 <= o < 0x80
  type F3 = f: int | 0 <= f < 8
  type F7 = f: int | 0 <= f < 0x80

  // ---- gen_stream.py ----

  function EncI(op: Op7, rd: Reg, f3: F3, rs1: Reg, imm12: int): Word {
    imm12 % 0x1000 * 0x10_0000 + rs1 * 0x8000 + f3 * 0x1000 + rd * 0x80 + op
  }

  function EncR(op: Op7, rd: Reg, f3: F3, rs1: Reg, rs2: Reg, f7: F7): Word {
    f7 * 0x200_0000 + rs2 * 0x10_0000 + rs1 * 0x8000 + f3 * 0x1000 + rd * 0x80 + op
  }

  function EncS(op: Op7, f3: F3, rs1: Reg, rs2: Reg, imm12: int): Word {
    var m := imm12 % 0x1000;
    m / 32 % 0x80 * 0x200_0000 + rs2 * 0x10_0000 + rs1 * 0x8000 + f3 * 0x1000 + m % 32 * 0x80 + op
  }

  function EncB(op: Op7, f3: F3, rs1: Reg, rs2: Reg, imm13: int): Word {
    BranchBits(op, f3, rs1, rs2, imm13 % 0x2000)
  }

  function BranchBits(op: Op7, f3: F3, rs1: Reg, rs2: Reg, m: int): Word
    requires 0 <= m < 0x2000
  {
    m / 0x1000 % 2 * 0x8000_0000 + m / 32 % 64 * 0x200_0000 + rs2 * 0x10_0000 + rs1 * 0x8000 + f3 * 0x1000 +
    m / 2 % 16 * 0x100 + m / 0x800 % 2 * 0x80 + op
  }

  function EncU(op: Op7, rd: Reg, imm20: int): Word {
    imm20 % 0x10_0000 * 0x1000 + rd * 0x80 + op
  }

  function EncJ(op: Op7, rd: Reg, imm21: int): Word {
    JumpBits(op, rd, imm21 % 0x20_0000)
  }

  function JumpBits(op: Op7, rd: Reg, m: int): Word
    requires 0 <= m < 0x20_0000
  {
    m / 0x10_0000 % 2 * 0x8000_0000 + m / 2 % 1024 * 0x20_0000 + m / 0x800 % 2 * 0x10_0000 +
    m / 0x1000 % 256 * 0x1000 + rd * 0x80 + op
  }

  // ---- asm.py ----

  function AsmR(rd: Reg, rs1: Reg, rs2: Reg, f3: F3, f7: F7, op: Op7): Word {
    f7 * 0x200_0000 + rs2 * 0x10_0000 + rs1 * 0x8000 + f3 * 0x1000 + rd * 0x80 + op
  }

  function AsmI(rd: Reg, rs1: Reg, imm: int, f3: F3, op: Op7): Word {
    imm % 0x1000 * 0x10_0000 + rs1 * 0x8000 + f3 * 0x1000 + rd * 0x80 + op
  }

  function AsmS(rs1: Reg, rs2: Reg, imm: int, f3: F3, op: Op7): Word {
    var m := imm % 0x1000;
    var hi, lo := m / 32 % 0x80, m % 32;
    hi * 0x200_0000 + rs2 * 0x10_0000 + rs1 * 0x8000 + f3 * 0x1000 + lo * 0x80 + op
  }

  function AsmB(rs1: Reg, rs2: Reg, imm: int, f3: F3, op: Op7): Word {
    var m := imm % 0x2000;
    var b12, b10_5, b4_1, b11 := m / 0x1000 % 2, m / 32 % 64, m / 2 % 16, m / 0x800 % 2;
    b12 * 0x8000_0000 + b10_5 * 0x200_0000 + rs2 * 0x10_0000 + rs1 * 0x8000 + f3 * 0x1000 + b4_1 * 0x100 +
    b11 * 0x80 + op
  }

  /** `imm` is a byte value whose low twelve bits are masked away. */
  function AsmU(rd: Reg, imm: int, op: Op7): Word {
    Wrap(imm) / 0x1000 * 0x1000 + rd * 0x80 + op
  }

  function AsmJ(rd: Reg, imm: int, op: Op7): Word {
    var m := imm % 0x20_0000;
    var b20, b10_1, b11, b19_12 := m / 0x10_0000 % 2, m / 2 % 1024, m / 0x800 % 2, m / 0x1000 % 256;
    b20 * 0x8000_0000 + b19_12 * 0x1000 + b11 * 0x10_0000 + b10_1 * 0x20_0000 + rd * 0x80 + op
  }

  // ---- slicing a sum of fields ----

  lemma FieldAt(w: int, hi: int, v: int, rest: int, low: int, size: int)
    requires low > 0 && size > 0 && 0 <= v < size && 0 <= rest < low
    requires w == (hi * size + v) * low + rest
    ensures w / low == hi * size + v && w / low % size == v
  {
    DivUnique(w, low, hi * size + v, rest);
    DivUnique(hi * size + v, size, hi, v);
  }

  /** The five register-and-function fields of a word, from its upper part, rd slot and opcode. */
  lemma CommonFields(w: Word, f7: F7, rs2: Reg, rs1: Reg, f3: F3, rd: Reg, op: Op7)
    requires w == f7 * 0x200_0000 + rs2 * 0x10_0000 + rs1 * 0x8000 + f3 * 0x1000 + rd * 0x80 + op
    ensures Opcode(w) == op && RdField(w) == rd && Funct3(w) == f3 && Rs1Field(w) == rs1 && Rs2Field(w) == rs2
    ensures Funct7Field(w) == f7 && Imm12Field(w) == f7 * 32 + rs2
    ensures Bit30(w) == (f7 / 32 % 2 == 1)
  {
    var k1 := rd * 0x80 + op;
    var k2 := f3 * 0x1000 + k1;
    var k3 := rs1 * 0x8000 + k2;
    var k4 := rs2 * 0x10_0000 + k3;
    FieldAt(w, f7, rs2, k3, 0x10_0000, 32);
    FieldAt(w, f7 * 32 + rs2, rs1, k2, 0x8000, 32);
    FieldAt(w, (f7 * 32 + rs2) * 32 + rs1, f3, k1, 0x1000, 8);
    FieldAt(w, ((f7 * 32 + rs2) * 32 + rs1) * 8 + f3, rd, op, 0x80, 32);
    DivUnique(w, 0x200_0000, f7, k4);
    DivUnique(w, 0x80, (((f7 * 32 + rs2) * 32 + rs1) * 8 + f3) * 32 + rd, op);
    Words.DivDiv(w, 0x200_0000, 32);
  }

  // ---- round trips ----

  /** A value outside the signed range wraps; inside it, masking and sign-extending is the identity. */
  lemma SignRoundTrip(v: int, half: int)
    requires half > 0 && -half <= v < half
    ensures 0 <= v % (2 * half) < 2 * half && SignedField(v % (2 * half), half) == v
  {
    DivUnique(v, 2 * half, if v < 0 then -1 else 0, if v < 0 then v + 2 * half else v);
  }

  lemma FieldsI(op: Op7, rd: Reg, f3: F3, rs1: Reg, imm: int)
    ensures var w := EncI(op, rd, f3, rs1, imm);
            && Opcode(w) == op && RdField(w) == rd && Funct3(w) == f3 && Rs1Field(w) == rs1
            && Imm12Field(w) == imm % 0x1000 && Bit30(w) == (imm % 0x1000 / 0x400 % 2 == 1)
  {
    hide Opcode, RdField, Funct3, Rs1Field, Rs2Field, Funct7Field, Imm12Field, Bit30;
    var m := imm % 0x1000;
    CommonFields(EncI(op, rd, f3, rs1, imm), m / 32, m % 32, rs1, f3, rd, op);
    assert m / 0x400 == m / 32 / 32;
  }

  lemma RoundTripI(op: Op7, rd: Reg, f3: F3, rs1: Reg, imm: int)
    requires -0x800 <= imm < 0x800
    ensures var w := EncI(op, rd, f3, rs1, imm);
            && Opcode(w) == op && RdField(w) == rd && Funct3(w) == f3 && Rs1Field(w) == rs1
            && Isa.ImmI(w) == imm && Extend(w, ImmSrc.ImmI) == Wrap(imm)
  {
    hide Opcode, RdField, Funct3, Rs1Field, Imm12Field, EncI, SignedField, Extend, Wrap;
    FieldsI(op, rd, f3, rs1, imm);
    SignRoundTrip(imm, 0x800);
    ExecuteCorrect.ImmediateI(EncI(op, rd, f3, rs1, imm));
  }

  lemma RoundTripR(op: Op7, rd: Reg, f3: F3, rs1: Reg, rs2: Reg, f7: F7)
    ensures var w := EncR(op, rd, f3, rs1, rs2, f7);
            && Opcode(w) == op && RdField(w) == rd && Funct3(w) == f3 && Rs1Field(w) == rs1
            && Rs2Field(w) == rs2 && Funct7Field(w) == f7 && Bit30(w) == (f7 / 32 % 2 == 1)
  {
    hide Opcode, RdField, Funct3, Rs1Field, Rs2Field, Funct7Field, Imm12Field, Bit30;
    CommonFields(EncR(op, rd, f3, rs1, rs2, f7), f7, rs2, rs1, f3, rd, op);
  }

  lemma FieldsS(op: Op7, f3: F3, rs1: Reg, rs2: Reg, imm: int)
    ensures var w := EncS(op, f3, rs1, rs2, imm);
            && Opcode(w) == op && Funct3(w) == f3 && Rs1Field(w) == rs1 && Rs2Field(w) == rs2
            && Funct7Field(w) == imm % 0x1000 / 32 && RdField(w) == imm % 0x1000 % 32
  {
    hide Opcode, RdField, Funct3, Rs1Field, Rs2Field, Funct7Field, Imm12Field, Bit30;
    var m := imm % 0x1000;
    CommonFields(EncS(op, f3, rs1, rs2, imm), m / 32 % 0x80, rs2, rs1, f3, m % 32, op);
  }

  lemma RoundTripS(op: Op7, f3: F3, rs1: Reg, rs2: Reg, imm: int)
    requires -0x800 <= imm < 0x800
    ensures var w := EncS(op, f3, rs1, rs2, imm);
            && Opcode(w) == op && Funct3(w) == f3 && Rs1Field(w) == rs1 && Rs2Field(w) == rs2
            && Isa.ImmS(w) == imm && Extend(w, ImmSrc.ImmS) == Wrap(imm)
  {
    hide Opcode, RdField, Funct3, Rs1Field, Rs2Field, Funct7Field, EncS, SignedField, Extend, Wrap;
    FieldsS(op, f3, rs1, rs2, imm);
    SignRoundTrip(imm, 0x800);
    ExecuteCorrect.ImmediateS(EncS(op, f3, rs1, rs2, imm));
  }

  /** The scattered bits of a branch offset, reassembled by place value. */
  lemma ReassembleB(m: int, imm: int)
    requires -0x1000 <= imm < 0x1000 && imm % 2 == 0 && m == imm % 0x2000
    ensures m / 0x1000 % 2 * -0x1000 + m / 0x800 % 2 * 0x800 + m / 32 % 64 * 32 + m / 2 % 16 * 2 == imm
  {
    SignRoundTrip(imm, 0x1000);
    ChopB(m);
  }

  lemma ChopB(m: int)
    requires 0 <= m < 0x2000 && m % 2 == 0
    ensures m == m / 0x1000 * 0x1000 + m / 0x800 % 2 * 0x800 + m / 32 % 64 * 32 + m / 2 % 16 * 2
  {
    DivDiv(m, 2, 16);
    DivDiv(m, 32, 64);
    DivDiv(m, 0x800, 2);
  }

  lemma RoundTripB(op: Op7, f3: F3, rs1: Reg, rs2: Reg, imm: int)
    requires -0x1000 <= imm < 0x1000 && imm % 2 == 0
    ensures var w := EncB(op, f3, rs1, rs2, imm);
            && Opcode(w) == op && Funct3(w) == f3 && Rs1Field(w) == rs1 && Rs2Field(w) == rs2
            && Isa.ImmB(w) == imm && Extend(w, ImmSrc.ImmB) == Wrap(imm)
  {
    hide Opcode, RdField, Funct3, Rs1Field, Rs2Field, Funct7Field, Imm12Field, Bit30, SignedField, Extend,
      Wrap;
    var m, w := imm % 0x2000, EncB(op, f3, rs1, rs2, imm);
    var b12, mid, low, b11 := m / 0x1000 % 2, m / 32 % 64, m / 2 % 16, m / 0x800 % 2;
    CommonFields(w, b12 * 64 + mid, rs2, rs1, f3, low * 2 + b11, op);
    BranchSlices(w, b12, mid, low, b11);
    ReassembleB(m, imm);
    ExecuteCorrect.ImmediateB(w);
  }

  lemma BranchSlices(w: Word, b12: int, mid: int, low: int, b11: int)
    requires 0 <= b12 < 2 && 0 <= mid < 64 && 0 <= low < 16 && 0 <= b11 < 2
    requires Funct7Field(w) == b12 * 64 + mid && RdField(w) == low * 2 + b11
    ensures w / 0x8000_0000 == b12 && w / 0x200_0000 % 64 == mid && w / 0x100 % 16 == low && w / 0x80 % 2 == b11
  {
    DivDiv(w, 0x200_0000, 64);
    DivDiv(w, 0x80, 2);
    var u := w / 0x80;
    assert u % 32 == low * 2 + b11;
    assert u / 2 % 16 == low;
  }

  lemma RoundTripU(op: Op7, rd: Reg, imm20: int)
    requires 0 <= imm20 < 0x10_0000
    ensures var w := EncU(op, rd, imm20);
            && Opcode(w) == op && RdField(w) == rd && Isa.ImmU(w) == imm20 && Extend(w, ImmSrc.ImmU) == imm20 * 0x1000
  {
    hide Extend;
    var w := EncU(op, rd, imm20);
    DivUnique(w, 0x1000, imm20, rd * 0x80 + op);
    DivUnique(w, 0x80, imm20 * 32 + rd, op);
    ExecuteCorrect.ImmediateU(w);
    WrapNoop(imm20 * 0x1000);
  }

  /** The scattered bits of a jump offset, reassembled by place value. */
  lemma ReassembleJ(m: int, imm: int)
    requires -0x10_0000 <= imm < 0x10_0000 && imm % 2 == 0 && m == imm % 0x20_0000
    ensures m / 0x10_0000 % 2 * -0x10_0000 + m / 0x1000 % 256 * 0x1000 + m / 0x800 % 2 * 0x800 + m / 2 % 1024 * 2 == imm
  {
    SignRoundTrip(imm, 0x10_0000);
    ChopJ(m);
  }

  lemma ChopJ(m: int)
    requires 0 <= m < 0x20_0000 && m % 2 == 0
    ensures m == m / 0x10_0000 * 0x10_0000 + m / 0x1000 % 256 * 0x1000 + m / 0x800 % 2 * 0x800 + m / 2 % 1024 * 2
  {
    DivDiv(m, 2, 1024);
    DivDiv(m, 0x800, 2);
    DivDiv(m, 0x1000, 256);
  }

  lemma RoundTripJ(op: Op7, rd: Reg, imm: int)
    requires -0x10_0000 <= imm < 0x10_0000 && imm % 2 == 0
    ensures var w := EncJ(op, rd, imm);
            && Opcode(w) == op && RdField(w) == rd && Isa.ImmJ(w) == imm && Extend(w, ImmSrc.ImmJ) == Wrap(imm)
  {
    hide Extend, Wrap, SignedField;
    var m, w := imm % 0x20_0000, EncJ(op, rd, imm);
    var b20, b10, b11, b19 := m / 0x10_0000 % 2, m / 2 % 1024, m / 0x800 % 2, m / 0x1000 % 256;
    JumpSlices(w, b20, b10, b11, b19, rd, op);
    ReassembleJ(m, imm);
    ExecuteCorrect.ImmediateJ(w);
  }

  lemma JumpSlices(w: Word, b20: int, b10: int, b11: int, b19: int, rd: Reg, op: Op7)
    requires 0 <= b20 < 2 && 0 <= b10 < 1024 && 0 <= b11 < 2 && 0 <= b19 < 256
    requires w == b20 * 0x8000_0000 + b10 * 0x20_0000 + b11 * 0x10_0000 + b19 * 0x1000 + rd * 0x80 + op
    ensures Opcode(w) == op && RdField(w) == rd
    ensures w / 0x8000_0000 == b20 && w / 0x20_0000 % 1024 == b10 && w / 0x10_0000 % 2 == b11 && w / 0x1000 % 256 == b19
  {
    var k1 := rd * 0x80 + op;
    var k2 := b19 * 0x1000 + k1;
    var k3 := b11 * 0x10_0000 + k2;
    DivUnique(w, 0x8000_0000, b20, b10 * 0x20_0000 + k3);
    FieldAt(w, b20, b10, k3, 0x20_0000, 1024);
    FieldAt(w, b20 * 1024 + b10, b11, k2, 0x10_0000, 2);
    FieldAt(w, (b20 * 1024 + b10) * 2 + b11, b19, k1, 0x1000, 256);
    FieldAt(w, ((b20 * 1024 + b10) * 2 + b11) * 256 + b19, rd, op, 0x80, 32);
    DivUnique(w, 0x80, (((b20 * 1024 + b10) * 2 + b11) * 256 + b19) * 32 + rd, op);
  }

  /** The two encoder sets build the same word from the same fields, in every format. */
  lemma EncodersAgree(op: Op7, rd: Reg, f3: F3, rs1: Reg, rs2: Reg, f7: F7, imm: int)
    ensures AsmR(rd, rs1, rs2, f3, f7, op) == EncR(op, rd, f3, rs1, rs2, f7)
    ensures AsmI(rd, rs1, imm, f3, op) == EncI(op, rd, f3, rs1, imm)
    ensures AsmS(rs1, rs2, imm, f3, op) == EncS(op, f3, rs1, rs2, imm)
    ensures AsmB(rs1, rs2, imm, f3, op) == EncB(op, f3, rs1, rs2, imm)
    ensures AsmJ(rd, imm, op) == EncJ(op, rd, imm)
    ensures AsmU(rd, imm * 0x1000, op) == EncU(op, rd, imm)
  {
    UpperWraps(imm);
  }

  lemma UpperWraps(imm: int)
    ensures Wrap(imm * 0x1000) / 0x1000 == imm % 0x10_0000
  {
    var q, r := imm / 0x10_0000, imm % 0x10_0000;
    assert imm * 0x1000 == 0x1_0000_0000 * q + r * 0x1000;
    DivUnique(imm * 0x1000, 0x1_0000_0000, q, r * 0x1000);
  }
}
