/** The random program generator (verif/spike/gen_stream.py), with its random source as an
    arbitrary stream of numbers: what is proved holds for every random choice. */
module GenStream {
  import opened Words
  import opened Rv32iPkg
  import opened Encoders
  import opened SafeProgram
  import opened StreamMeaning
  import Isa

  class Rng {
    const stream: nat -> nat
    var drawn: nat

    constructor (source: nat -> nat)
      ensures stream == source && drawn == 0
    {
      stream, drawn := source, 0;
    }

    method Randrange(n: int) returns (r: int)
      requires n > 0
      modifies this
      ensures 0 <= r < n && r == Below(stream, old(drawn), n) && drawn == old(drawn) + 1
    {
      r := stream(drawn) % n;
      drawn := drawn + 1;
    }

    method Choice(pool: seq<Reg>) returns (r: Reg)
      requires pool != []
      modifies this
      ensures r == pool[Below(stream, old(drawn), |pool|)] && drawn == old(drawn) + 1
    {
      var k := Randrange(|pool|);
      r := pool[k];
    }

    /** One of the three forward offsets: 16 * randint(1, 3). */
    method Offset() returns (off: int)
      modifies this
      ensures OkOffset(off) && off == OffsetAt(stream, old(drawn)) && drawn == old(drawn) + 1
    {
      var k := Randrange(3);
      off := (k + 1) * 16;
    }
  }

  // x2..x30, and the destination pool: x0 and those.
  const USABLE_GPRS: seq<Reg> := seq(29, i requires 0 <= i < 29 => i + 2)
  const DEST_GPRS: seq<Reg> := [0] + USABLE_GPRS
  const RECENT_RESULT_BIAS_PERCENT := 60

  // ---- what each encoding decodes to ----

  lemma DecodeOp(rd: Reg, f3: F3, rs1: Reg, rs2: Reg, f7: F7)
    ensures Isa.Decode(EncR(OP_RTYPE, rd, f3, rs1, rs2, f7)) ==
            Isa.Op(Isa.KindOf(f3, f7 / 32 % 2 == 1, true), rd, rs1, rs2)
  {
    hide EncR, Opcode, RdField, Funct3, Rs1Field, Rs2Field, Bit30, Isa.KindOf;
    RoundTripR(OP_RTYPE, rd, f3, rs1, rs2, f7);
  }

  lemma DecodeOpImm(rd: Reg, f3: F3, rs1: Reg, imm: int)
    ensures var w := EncI(OP_ITYPE, rd, f3, rs1, imm);
            Isa.Decode(w) == Isa.OpImm(Isa.KindOf(f3, Bit30(w), false), rd, rs1, Isa.ImmI(w))
    ensures -0x800 <= imm < 0x800 ==> Isa.ImmI(EncI(OP_ITYPE, rd, f3, rs1, imm)) == imm
  {
    hide EncI, Opcode, RdField, Funct3, Rs1Field, Imm12Field, Isa.KindOf, Isa.ImmI, Bit30;
    FieldsI(OP_ITYPE, rd, f3, rs1, imm);
    if -0x800 <= imm < 0x800 {
      RoundTripI(OP_ITYPE, rd, f3, rs1, imm);
    }
  }

  lemma DecodeLoad(rd: Reg, f3: F3, rs1: Reg, imm: int)
    requires 0 <= imm < 0x800
    ensures Isa.Decode(EncI(OP_LOAD, rd, f3, rs1, imm)) == Isa.Load(Isa.LoadWidth(f3), f3 < 3, rd, rs1, imm)
  {
    hide EncI, Opcode, RdField, Funct3, Rs1Field, Imm12Field, Isa.LoadWidth, Isa.ImmI;
    RoundTripI(OP_LOAD, rd, f3, rs1, imm);
  }

  lemma DecodeJalr(rd: Reg, rs1: Reg, imm: int)
    requires 0 <= imm < 0x800
    ensures Isa.Decode(EncI(OP_JALR, rd, 0, rs1, imm)) == Isa.Jalr(rd, rs1, imm)
  {
    hide EncI, Opcode, RdField, Funct3, Rs1Field, Imm12Field, Isa.ImmI;
    RoundTripI(OP_JALR, rd, 0, rs1, imm);
  }

  lemma DecodeStore(f3: F3, rs1: Reg, rs2: Reg, imm: int)
    requires 0 <= imm < 0x800
    ensures Isa.Decode(EncS(OP_STORE, f3, rs1, rs2, imm)) == Isa.Store(Isa.StoreWidth(f3), rs1, rs2, imm)
  {
    hide EncS, Opcode, Funct3, Rs1Field, Rs2Field, Isa.StoreWidth, Isa.ImmS;
    RoundTripS(OP_STORE, f3, rs1, rs2, imm);
  }

  lemma DecodeBranch(f3: F3, rs1: Reg, rs2: Reg, off: int)
    requires OkOffset(off)
    ensures Isa.Decode(EncB(OP_BRANCH, f3, rs1, rs2, off)) == Isa.Branch(Isa.CondOf(f3), rs1, rs2, off)
  {
    hide EncB, Opcode, Funct3, Rs1Field, Rs2Field, Isa.CondOf, Isa.ImmB;
    RoundTripB(OP_BRANCH, f3, rs1, rs2, off);
  }

  lemma DecodeJal(rd: Reg, off: int)
    requires OkOffset(off)
    ensures Isa.Decode(EncJ(OP_JAL, rd, off)) == Isa.Jal(rd, off)
  {
    hide EncJ, Opcode, RdField, Isa.ImmJ;
    RoundTripJ(OP_JAL, rd, off);
  }

  lemma DecodeUpper(op: Op7, rd: Reg, imm20: int)
    requires 0 <= imm20 < 0x10_0000
    ensures Isa.Decode(EncU(OP_LUI, rd, imm20)) == Isa.Lui(rd, imm20)
    ensures Isa.Decode(EncU(OP_AUIPC, rd, imm20)) == Isa.Auipc(rd, imm20)
  {
    hide EncU, Opcode, RdField, Isa.ImmU;
    RoundTripU(OP_LUI, rd, imm20);
    RoundTripU(OP_AUIPC, rd, imm20);
  }

  lemma DecodeConstant(rd: Reg, value: int)
    requires 0 <= value < 0x800
    ensures SetsConstant(EncI(OP_ITYPE, rd, 0, 0, value), rd, value)
  {
    hide EncI, Isa.Decode, Isa.ImmI, Bit30;
    DecodeOpImm(rd, 0, 0, value);
  }

  lemma NopIsConstant()
    ensures SetsConstant(NOP_INSTR, 0, 0)
  {
    assert NOP_INSTR == EncI(OP_ITYPE, 0, 0, 0, 0);
    DecodeConstant(0, 0);
  }

  // ---- the generator's parts ----

  /** A source register. */
  method BiasedSrc(rng: Rng, recent: Recent) returns (r: Reg)
    requires forall k :: 0 <= k < 3 ==> OkSrc(recent[k])
    modifies rng
    ensures OkSrc(r)
    ensures Drawn(r, rng.drawn) == Source(rng.stream, old(rng.drawn), recent)
  {
    var percent := rng.Randrange(100);
    if percent < RECENT_RESULT_BIAS_PERCENT {
      var slot := rng.Randrange(3);
      if recent[slot] != 0 {
        return recent[slot];
      }
    }
    r := rng.Randrange(31);
  }

  function PushProducer(recent: Recent, reg: Reg, writes: bool): Recent {
    [if writes && reg != 0 then reg else 0] + recent[..2]
  }

  /** What the words decode to. */
  function Decoded(ws: seq<Word>): (is_: seq<Isa.Instr>)
    ensures |is_| == |ws|
  {
    seq(|ws|, i requires 0 <= i < |ws| => Isa.Decode(ws[i]))
  }

  lemma LastDestinationsAppend(body: seq<Isa.Instr>, i: Isa.Instr)
    ensures LastDestinations(body + [i]) == PushProducer(LastDestinations(body), Destination(i), true)
  {
    hide Destination;
    assert (body + [i])[..|body|] == body;
  }

  lemma LastDestinationsAppendTwo(body: seq<Isa.Instr>, first: Isa.Instr, second: Isa.Instr)
    ensures LastDestinations(body + [first, second]) ==
            PushProducer(PushProducer(LastDestinations(body), Destination(first), true), Destination(second), true)
  {
    hide Destination, PushProducer, LastDestinations;
    var one := body + [first];
    LastDestinationsAppend(body, first);
    LastDestinationsAppend(one, second);
    assert one + [second] == body + [first, second];
  }

  lemma OkDestination(w: Word)
    requires InstrOk(Isa.Decode(w))
    ensures OkDest(Destination(Isa.Decode(w)))
  {
    hide Isa.Decode;
  }

  lemma {:induction false} LastDestinationsOk(body: seq<Word>)
    requires forall k: nat :: k < |body| ==> BodyOk(body, k)
    ensures forall k :: 0 <= k < 3 ==> OkSrc(LastDestinations(Decoded(body))[k])
  {
    hide Isa.Decode, InstrOk;
    if body != [] {
      var front := body[..|body| - 1];
      assert BodyOk(body, |body| - 1);
      if InstrOk(Isa.Decode(body[|body| - 1])) {
        OkDestination(body[|body| - 1]);
      }
      forall k: nat | k < |front| ensures BodyOk(front, k) {
        assert BodyOk(body, k);
      }
      LastDestinationsOk(front);
      assert Decoded(body)[..|body| - 1] == Decoded(front);
    }
  }

  /** An allowed word that writes `dest`, and transfers control `off` bytes on if that is not zero. */
  ghost predicate Emits(w: Word, dest: Reg, off: int) {
    var d := Isa.Decode(w);
    && LegalEncoding(w) && InstrOk(d) && Destination(d) == dest
    && forall k :: Target(d, k) == if off == 0 then Isa.None else Isa.Some(k + off / 4)
  }

  method RandomOp(rng: Rng, rd: Reg, rs1: Reg, rs2: Reg) returns (w: Word)
    requires OkDest(rd) && OkSrc(rs1) && OkSrc(rs2)
    modifies rng
    ensures LegalEncoding(w)
    ensures Emits(w, rd, 0)
    ensures Drawn(Isa.Decode(w), rng.drawn) == OpAt(rng.stream, old(rng.drawn), rd, rs1, rs2)
  {
    hide EncR, Isa.Decode, LegalEncoding, Emits;
    var funct3 := rng.Randrange(8);
    var funct7 := 0;
    if funct3 == 0 || funct3 == 5 {
      var alternate := rng.Randrange(2);
      funct7 := if alternate != 0 then 0x20 else 0;
    }
    w := EncR(OP_RTYPE, rd, funct3, rs1, rs2, funct7);
    OpMeans(rd, funct3, rs1, rs2, funct7);
  }

  lemma OpMeans(rd: Reg, f3: F3, rs1: Reg, rs2: Reg, f7: F7)
    requires OkDest(rd) && OkSrc(rs1) && OkSrc(rs2) && (f7 == 0 || (f7 == 0x20 && f3 in {0, 5}))
    ensures var w := EncR(OP_RTYPE, rd, f3, rs1, rs2, f7);
            && Isa.Decode(w) == Isa.Op(Isa.KindOf(f3, f7 != 0, true), rd, rs1, rs2)
            && LegalEncoding(w) && Emits(w, rd, 0)
  {
    hide EncR, Isa.Decode, Isa.KindOf, Opcode, Funct3, Funct7Field;
    DecodeOp(rd, f3, rs1, rs2, f7);
    RoundTripR(OP_RTYPE, rd, f3, rs1, rs2, f7);
  }

  method RandomOpImm(rng: Rng, rd: Reg, rs1: Reg) returns (w: Word)
    requires OkDest(rd) && OkSrc(rs1)
    modifies rng
    ensures LegalEncoding(w)
    ensures Emits(w, rd, 0)
    ensures Drawn(Isa.Decode(w), rng.drawn) == OpImmAt(rng.stream, old(rng.drawn), rd, rs1)
  {
    hide EncI, Isa.Decode, LegalEncoding, Emits;
    var pick := rng.Randrange(8);
    var funct3: F3 := [0, 2, 3, 4, 6, 7, 1, 5][pick];
    var imm: int;
    if funct3 == 1 {
      imm := rng.Randrange(32);
    } else if funct3 == 5 {
      imm := rng.Randrange(32);
      var alternate := rng.Randrange(2);
      imm := imm + if alternate != 0 then 0x400 else 0;
    } else {
      imm := rng.Randrange(4096);
    }
    w := EncI(OP_ITYPE, rd, funct3, rs1, imm);
    OpImmMeans(rd, funct3, rs1, imm);
  }

  lemma OpImmMeans(rd: Reg, f3: F3, rs1: Reg, imm: int)
    requires OkDest(rd) && OkSrc(rs1) && 0 <= imm < 4096
    requires (f3 == 1 ==> imm < 32) && (f3 == 5 ==> imm < 32 || 1024 <= imm < 1056)
    ensures var w := EncI(OP_ITYPE, rd, f3, rs1, imm);
            && Isa.Decode(w) ==
               Isa.OpImm(Isa.KindOf(f3, imm / 1024 % 2 == 1, false), rd, rs1, if imm < 2048 then imm else imm - 4096)
            && LegalEncoding(w) && Emits(w, rd, 0)
  {
    hide EncI, Isa.Decode, Isa.KindOf, Opcode, Funct3, Funct7Field, Bit30, Imm12Field;
    DecodeOpImm(rd, f3, rs1, imm);
    FieldsI(OP_ITYPE, rd, f3, rs1, imm);
    ShiftField(rd, f3, rs1, imm);
  }

  lemma ShiftField(rd: Reg, f3: F3, rs1: Reg, imm: int)
    requires 0 <= imm < 4096
    ensures var w := EncI(OP_ITYPE, rd, f3, rs1, imm);
            Opcode(w) == OP_ITYPE && Funct3(w) == f3 && Funct7Field(w) == imm / 32
  {
    hide Opcode, RdField, Funct3, Rs1Field, Rs2Field, Imm12Field, Bit30;
    CommonFields(EncI(OP_ITYPE, rd, f3, rs1, imm), imm / 32, imm % 32, rs1, f3, rd, OP_ITYPE);
  }

  method RandomLoad(rng: Rng, rd: Reg) returns (w: Word)
    requires OkDest(rd)
    modifies rng
    ensures LegalEncoding(w)
    ensures var d := Isa.Decode(w); d.Load? && d.rd == rd && d.rs1 == DATA_BASE_GPR && InWindow(d.width, d.off)
    ensures Emits(w, rd, 0)
    ensures Drawn(Isa.Decode(w), rng.drawn) == LoadAt(rng.stream, old(rng.drawn), rd)
  {
    hide Below, EncI, Isa.Decode, LegalEncoding, InWindow, Emits, LoadAt, OkAccess, Isa.LoadWidth;
    var o0 := rng.Randrange(64);
    var o1 := rng.Randrange(128);
    var o2 := rng.Randrange(128);
    var o3 := rng.Randrange(256);
    var o4 := rng.Randrange(256);
    var pick := rng.Randrange(5);
    ghost var d, s := old(rng.drawn), rng.stream;
    var funct3: F3, off: int;
    if pick == 0 {
      funct3, off := 2, o0 * 4;
      LoadChoice(s, d, rd, 0, 2, off);
    } else if pick == 1 {
      funct3, off := 1, o1 * 2;
      LoadChoice(s, d, rd, 1, 1, off);
    } else if pick == 2 {
      funct3, off := 5, o2 * 2;
      LoadChoice(s, d, rd, 2, 5, off);
    } else if pick == 3 {
      funct3, off := 0, o3;
      LoadChoice(s, d, rd, 3, 0, off);
    } else {
      funct3, off := 4, o4;
      LoadChoice(s, d, rd, 4, 4, off);
    }
    w := EncI(OP_LOAD, rd, funct3, DATA_BASE_GPR, off);
    LoadInWindow(rd, funct3, off);
  }

  lemma LoadChoice(s: Draws, d: nat, rd: Reg, pick: int, f3: F3, off: int)
    requires pick == Below(s, d + 5, 5)
    requires
      || (pick == 0 && f3 == 2 && off == Below(s, d, 64) * 4)
      || (pick == 1 && f3 == 1 && off == Below(s, d + 1, 128) * 2)
      || (pick == 2 && f3 == 5 && off == Below(s, d + 2, 128) * 2)
      || (pick == 3 && f3 == 0 && off == Below(s, d + 3, 256))
      || (pick == 4 && f3 == 4 && off == Below(s, d + 4, 256))
    ensures OkAccess(f3, off) && LoadAt(s, d, rd) == Drawn(Isa.Load(Isa.LoadWidth(f3), f3 < 3, rd, 1, off), d + 6)
  {}

  /** Bytes and halfwords of either extension, and words, at an offset aligned to their size. */
  predicate OkAccess(f3: F3, off: int) {
    0 <= off <= 255 &&
    (f3 == 0 || f3 == 4 || ((f3 == 1 || f3 == 5) && off % 2 == 0) || (f3 == 2 && off % 4 == 0))
  }

  lemma LoadInWindow(rd: Reg, f3: F3, off: int)
    requires OkAccess(f3, off)
    ensures var w := EncI(OP_LOAD, rd, f3, DATA_BASE_GPR, off);
            var d := Isa.Decode(w);
            && LegalEncoding(w) && d.Load? && d.rd == rd && d.rs1 == DATA_BASE_GPR && InWindow(d.width, d.off)
            && d == Isa.Load(Isa.LoadWidth(f3), f3 < 3, rd, 1, off) && (OkDest(rd) ==> Emits(w, rd, 0))
  {
    hide EncI, Isa.Decode, Opcode, Funct3, Funct7Field;
    DecodeLoad(rd, f3, DATA_BASE_GPR, off);
    FieldsI(OP_LOAD, rd, f3, DATA_BASE_GPR, off);
  }

  method RandomStore(rng: Rng, rs2: Reg) returns (w: Word)
    requires OkSrc(rs2)
    modifies rng
    ensures LegalEncoding(w)
    ensures var d := Isa.Decode(w); d.Store? && d.rs2 == rs2 && d.rs1 == DATA_BASE_GPR && InWindow(d.width, d.off)
    ensures Emits(w, 0, 0)
    ensures Drawn(Isa.Decode(w), rng.drawn) == StoreAt(rng.stream, old(rng.drawn), rs2)
  {
    hide EncS, Isa.Decode, LegalEncoding, InWindow, Emits;
    var o0 := rng.Randrange(64);
    var o1 := rng.Randrange(128);
    var o2 := rng.Randrange(256);
    var pick := rng.Randrange(3);
    var funct3: F3, off: int;
    if pick == 0 {
      funct3, off := 2, o0 * 4;
    } else if pick == 1 {
      funct3, off := 1, o1 * 2;
    } else {
      funct3, off := 0, o2;
    }
    w := EncS(OP_STORE, funct3, DATA_BASE_GPR, rs2, off);
    StoreInWindow(funct3, rs2, off);
  }

  lemma StoreInWindow(f3: F3, rs2: Reg, off: int)
    requires OkSrc(rs2) && f3 < 3 && OkAccess(f3, off)
    ensures var w := EncS(OP_STORE, f3, DATA_BASE_GPR, rs2, off);
            var d := Isa.Decode(w);
            && LegalEncoding(w) && d == Isa.Store(Isa.StoreWidth(f3), 1, rs2, off) && InWindow(d.width, d.off)
            && Emits(w, 0, 0)
  {
    hide EncS, Isa.Decode, Opcode, Funct3, Funct7Field;
    DecodeStore(f3, DATA_BASE_GPR, rs2, off);
    FieldsS(OP_STORE, f3, DATA_BASE_GPR, rs2, off);
  }

  method RandomBranch(rng: Rng, rs1: Reg, rs2: Reg) returns (w: Word, off: int)
    requires OkSrc(rs1) && OkSrc(rs2)
    modifies rng
    ensures OkOffset(off) && LegalEncoding(w)
    ensures Emits(w, 0, off)
    ensures Drawn(Isa.Decode(w), rng.drawn) == BranchAt(rng.stream, old(rng.drawn), rs1, rs2)
  {
    hide EncB, Isa.Decode, Opcode, Funct3, Funct7Field;
    var notEqual := rng.Randrange(2);
    var funct3 := if notEqual != 0 then 1 else 0;
    off := rng.Offset();
    w := EncB(OP_BRANCH, funct3, rs1, rs2, off);
    DecodeBranch(funct3, rs1, rs2, off);
    RoundTripB(OP_BRANCH, funct3, rs1, rs2, off);
  }

  method RandomJal(rng: Rng, rd: Reg) returns (w: Word, off: int)
    requires OkDest(rd)
    modifies rng
    ensures OkOffset(off) && LegalEncoding(w) && Isa.Decode(w) == Isa.Jal(rd, off)
    ensures Emits(w, rd, off)
    ensures Drawn(Isa.Decode(w), rng.drawn) == JalAt(rng.stream, old(rng.drawn), rd)
  {
    hide EncJ, Isa.Decode, Opcode, Funct3, Funct7Field;
    off := rng.Offset();
    w := EncJ(OP_JAL, rd, off);
    DecodeJal(rd, off);
    RoundTripJ(OP_JAL, rd, off);
  }

  /** The unit that pins the JALR's base to the AUIPC's own address. */
  method RandomPair(rng: Rng, rd: Reg) returns (first: Word, second: Word, rt: Reg, off: int)
    requires OkDest(rd)
    modifies rng
    ensures OkOffset(off) && 2 <= rt <= 30 && LegalEncoding(first) && LegalEncoding(second)
    ensures Isa.Decode(first) == Isa.Auipc(rt, 0) && Isa.Decode(second) == Isa.Jalr(rd, rt, off)
    ensures InstrOk(Isa.Decode(first)) && PairOk(Isa.Decode(first), Isa.Decode(second))
    ensures Destination(Isa.Decode(first)) == rt && Destination(Isa.Decode(second)) == rd
    ensures Drawn([Isa.Decode(first), Isa.Decode(second)], rng.drawn) == PairAt(rng.stream, old(rng.drawn), rd)
  {
    hide EncU, EncI, Isa.Decode, Opcode, Funct3, Funct7Field;
    rt := rng.Choice(USABLE_GPRS);
    off := rng.Offset();
    first, second := EncU(OP_AUIPC, rt, 0), EncI(OP_JALR, rd, 0, rt, off);
    DecodeUpper(OP_AUIPC, rt, 0);
    DecodeJalr(rd, rt, off);
    RoundTripU(OP_AUIPC, rt, 0);
    FieldsI(OP_JALR, rd, 0, rt, off);
  }

  method RandomUpper(rng: Rng, rd: Reg) returns (w: Word)
    requires OkDest(rd)
    modifies rng
    ensures LegalEncoding(w)
    ensures Emits(w, rd, 0)
    ensures Drawn(Isa.Decode(w), rng.drawn) == UpperAt(rng.stream, old(rng.drawn), rd)
  {
    hide EncU, Isa.Decode, Opcode, Funct3, Funct7Field;
    var pick := rng.Randrange(2);
    var op := if pick != 0 then OP_LUI else OP_AUIPC;
    var upper := rng.Randrange(0x10_0000);
    w := EncU(op, rd, upper);
    DecodeUpper(op, rd, upper);
    RoundTripU(op, rd, upper);
  }

  predicate AllLegal(ws: seq<Word>) { forall k :: 0 <= k < |ws| ==> LegalEncoding(ws[k]) }

  /** The classes that emit a single word; LUI and AUIPC stand in where a pair would not fit. A transfer
      comes with its offset, other words with zero; the destination is zero where none is written. */
  method RandomWord(rng: Rng, cls: int, rd: Reg, rs1: Reg, rs2: Reg) returns (w: Word, dest: Reg, off: int)
    requires OkDest(rd) && OkSrc(rs1) && OkSrc(rs2)
    modifies rng
    ensures Emits(w, dest, off) && (off != 0 ==> OkOffset(off))
    ensures dest == if 62 <= cls < 85 then 0 else rd
    ensures off != 0 <==> 75 <= cls < 90
    ensures Drawn(Isa.Decode(w), rng.drawn) == WordAt(rng.stream, old(rng.drawn), cls, rd, rs1, rs2)
  {
    hide Emits;
    dest, off := rd, 0;
    if cls < 25 {
      w := RandomOp(rng, rd, rs1, rs2);
    } else if cls < 45 {
      w := RandomOpImm(rng, rd, rs1);
    } else if cls < 62 {
      w := RandomLoad(rng, rd);
    } else if cls < 75 {
      w := RandomStore(rng, rs2);
      dest := 0;
    } else if cls < 85 {
      w, off := RandomBranch(rng, rs1, rs2);
      dest := 0;
    } else if cls < 90 {
      w, off := RandomJal(rng, rd);
    } else {
      w := RandomUpper(rng, rd);
    }
  }

  /** Every recorded landing place is that of some transfer of the body. */
  ghost predicate Recorded(body: seq<Word>, targets: set<nat>) {
    forall t :: t in targets ==> exists k: nat :: LandsOn(body, k, t)
  }

  predicate LandsOn(body: seq<Word>, k: nat, t: nat) {
    k < |body| && Target(Isa.Decode(body[k]), k) == Isa.Some(t - BODY_BASE)
  }

  lemma RecordedAppend(body: seq<Word>, more: seq<Word>, targets: set<nat>, targets': set<nat>, last: nat)
    requires Recorded(body, targets) && |body| <= last < |body + more|
    requires var t := Target(Isa.Decode((body + more)[last]), last);
             if t.Some? then t.value >= 0 && targets' == targets + {BODY_BASE + t.value} else targets' == targets
    ensures Recorded(body + more, targets')
  {
    hide Isa.Decode, Target;
    var b := body + more;
    forall t | t in targets' ensures exists k: nat :: LandsOn(b, k, t) {
      if t in targets {
        var k: nat :| LandsOn(body, k, t);
        assert LandsOn(b, k, t);
      } else {
        assert LandsOn(b, last, t);
      }
    }
  }

  lemma RoomIsFree(body: seq<Word>, targets: set<nat>)
    requires BodyInv(body, targets) && Recorded(body, targets)
    ensures BODY_BASE + |body| + 1 !in targets <==> Free(Decoded(body), |body| + 1)
  {
    hide Isa.Decode, Target;
    var place := BODY_BASE + |body| + 1;
    if place in targets {
      var k: nat :| LandsOn(body, k, place);
      assert Target(Decoded(body)[k], k) == Isa.Some(|body| + 1);
    } else {
      forall j | 0 <= j < |body| ensures Target(Decoded(body)[j], j) != Isa.Some(|body| + 1) {
        assert Target(Isa.Decode(body[j]), j).Some? ==> BODY_BASE + Target(Isa.Decode(body[j]), j).value in targets;
      }
    }
  }

  /** What the loop keeps about the words emitted, the landing places recorded and the recent producers. */
  ghost predicate LoopInv(body: seq<Word>, targets: set<nat>, recent: Recent) {
    BodyInv(body, targets) && Recorded(body, targets) && AllLegal(body) && recent == LastDestinations(Decoded(body))
  }

  /** One turn of the generator's loop: the instructions that the drawn numbers mean, in one legal word or
      two, with their landing places and destinations recorded. */
  method RandomInstr(rng: Rng, recent: Recent, body: seq<Word>, targets: set<nat>)
    returns (body': seq<Word>, recent': Recent, targets': set<nat>)
    requires LoopInv(body, targets, recent)
    modifies rng
    ensures LoopInv(body', targets', recent')
    ensures body < body' && |body'| <= |body| + 2
    ensures var turn := TurnAt(rng.stream, old(rng.drawn), Decoded(body));
            Decoded(body') == Decoded(body) + turn.value && rng.drawn == turn.next
  {
    hide Isa.Decode, LegalEncoding, BodyInv, Recorded, LastDestinations, InstrOk, Destination, Target,
      PairOk, Source, WordAt, PairAt, Free;
    LastDestinationsOkFor(body, targets);
    RoomIsFree(body, targets);
    var idx := BODY_BASE + |body|;
    var cls := rng.Randrange(100);
    var rs1 := BiasedSrc(rng, recent);
    var rs2 := BiasedSrc(rng, recent);
    var rd := rng.Choice(DEST_GPRS);
    assert OkDest(rd);
    if 90 <= cls < 94 && idx + 1 !in targets {
      var first, second, rt, off := RandomPair(rng, rd);
      targets' := targets + {idx + off / 4};
      PairStep(body, targets, first, second, targets');
      LastDestinationsAppendTwo(Decoded(body), Isa.Decode(first), Isa.Decode(second));
      body' := body + [first, second];
      recent' := PushProducer(PushProducer(recent, rt, true), rd, true);
      assert Decoded(body') == Decoded(body) + [Isa.Decode(first), Isa.Decode(second)];
    } else {
      var w, dest, off := RandomWord(rng, cls, rd, rs1, rs2);
      targets' := if off != 0 then targets + {idx + off / 4} else targets;
      WordStep(body, targets, w, dest, off, targets');
      LastDestinationsAppend(Decoded(body), Isa.Decode(w));
      body' := body + [w];
      recent' := PushProducer(recent, dest, dest != 0);
      assert Decoded(body') == Decoded(body) + [Isa.Decode(w)];
    }
  }

  lemma WordStep(body: seq<Word>, targets: set<nat>, w: Word, dest: Reg, off: int, targets': set<nat>)
    requires BodyInv(body, targets) && Recorded(body, targets) && Emits(w, dest, off) && (off != 0 ==> OkOffset(off))
    requires targets' == if off != 0 then targets + {BODY_BASE + |body| + off / 4} else targets
    ensures BodyInv(body + [w], targets') && Recorded(body + [w], targets')
  {
    hide Isa.Decode, LegalEncoding, BodyInv, Recorded, InstrOk, Target, Destination;
    AppendWord(body, targets, w, targets');
    RecordedAppend(body, [w], targets, targets', |body|);
  }

  lemma PairStep(body: seq<Word>, targets: set<nat>, first: Word, second: Word, targets': set<nat>)
    requires BodyInv(body, targets) && Recorded(body, targets)
    requires InstrOk(Isa.Decode(first)) && PairOk(Isa.Decode(first), Isa.Decode(second))
    requires BODY_BASE + |body| + 1 !in targets
    requires targets' == targets + {BODY_BASE + |body| + Isa.Decode(second).off / 4}
    ensures BodyInv(body + [first, second], targets') && Recorded(body + [first, second], targets')
  {
    hide Isa.Decode, BodyInv, Recorded, InstrOk;
    AppendPair(body, targets, first, second, targets');
    RecordedAppend(body, [first, second], targets, targets', |body| + 1);
  }

  lemma LastDestinationsOkFor(body: seq<Word>, targets: set<nat>)
    requires BodyInv(body, targets)
    ensures forall k :: 0 <= k < 3 ==> OkSrc(LastDestinations(Decoded(body))[k])
  {
    LastDestinationsOk(body);
  }

  /** For every stream of numbers, the program whose body is what they mean, safe and legal; or nothing
      when the program is longer than 384 words. `count` is the number of words it has or would have had. */
  method Generate(rng: Rng, randomInstrCount: nat) returns (r: Isa.Option<seq<Word>>, ghost count: nat)
    modifies rng
    ensures BODY_BASE + TAIL + randomInstrCount <= count <= BODY_BASE + TAIL + 2 * randomInstrCount
    ensures r.Some? <==> FitsAddi(count)
    ensures r.Some? ==> |r.value| == count && Safe(r.value) && AllLegal(r.value)
    ensures var body := BodyAt(rng.stream, old(rng.drawn), randomInstrCount);
            && rng.drawn == body.next && count == 43 + |body.value|
            && (r.Some? <==> count <= 384)
            && (r.Some? ==> Decoded(r.value[30..count - 13]) == body.value)
  {
    hide LoopInv, TurnAt, Decoded, Safe, LegalEncoding, DataBase, FitsAddi;
    var zeroRegs: seq<Word> := seq(29, i requires 0 <= i < 29 => EncI(OP_ITYPE, i + 2, 0, 0, 0));
    var recent: Recent := [DATA_BASE_GPR, 0, 0];
    var body: seq<Word>, targets: set<nat> := [], {};
    LoopStarts();
    for n := 0 to randomInstrCount
      invariant LoopInv(body, targets, recent) && n <= |body| <= 2 * n
      invariant Drawn(Decoded(body), rng.drawn) == BodyAt(rng.stream, old(rng.drawn), n)
    {
      body, recent, targets := RandomInstr(rng, recent, body, targets);
    }
    var programWords := BODY_BASE + |body| + PAD_WORDS + 1;
    count := programWords;
    DataBaseClearsCode(count);
    if !FitsAddi(programWords) {
      return Isa.None, count;
    }
    var base := DataBase(programWords);
    var words := zeroRegs + [EncI(OP_ITYPE, DATA_BASE_GPR, 0, 0, base)] + body;
    words := words + seq(PAD_WORDS, _ => NOP_INSTR);
    words := words + [EncI(OP_ITYPE, COMPLETION_GPR, 0, 0, COMPLETION_VALUE)];
    LoopEnds(words, body, targets, recent);
    r := Isa.Some(words);
  }

  lemma LoopStarts()
    ensures LoopInv([], {}, [DATA_BASE_GPR, 0, 0]) && Decoded([]) == []
  {}

  lemma LoopEnds(p: seq<Word>, body: seq<Word>, targets: set<nat>, recent: Recent)
    requires LoopInv(body, targets, recent) && |p| == BODY_BASE + |body| + TAIL && FitsAddi(|p|)
    requires forall i :: 0 <= i < 29 ==> p[i] == EncI(OP_ITYPE, i + 2, 0, 0, 0)
    requires p[29] == EncI(OP_ITYPE, DATA_BASE_GPR, 0, 0, DataBase(|p|))
    requires p[BODY_BASE..|p| - TAIL] == body
    requires forall i :: |p| - TAIL <= i < |p| - 1 ==> p[i] == NOP_INSTR
    requires p[|p| - 1] == EncI(OP_ITYPE, COMPLETION_GPR, 0, 0, COMPLETION_VALUE)
    ensures Safe(p) && AllLegal(p)
  {
    hide EncI, BodyInv, Recorded, LegalEncoding, Safe, LastDestinations;
    LaidOutSafely(p, body, targets);
    LaidOutLegally(p, body);
  }

  lemma LaidOutLegally(p: seq<Word>, body: seq<Word>)
    requires AllLegal(body) && |p| == BODY_BASE + |body| + TAIL && FitsAddi(|p|)
    requires forall i :: 0 <= i < 29 ==> p[i] == EncI(OP_ITYPE, i + 2, 0, 0, 0)
    requires p[29] == EncI(OP_ITYPE, DATA_BASE_GPR, 0, 0, DataBase(|p|))
    requires p[BODY_BASE..|p| - TAIL] == body
    requires forall i :: |p| - TAIL <= i < |p| - 1 ==> p[i] == NOP_INSTR
    requires p[|p| - 1] == EncI(OP_ITYPE, COMPLETION_GPR, 0, 0, COMPLETION_VALUE)
    ensures AllLegal(p)
  {
    hide EncI, LegalEncoding;
    LegalConstant(DATA_BASE_GPR, DataBase(|p|));
    LegalConstant(COMPLETION_GPR, COMPLETION_VALUE);
    forall i | 0 <= i < |p| ensures LegalEncoding(p[i]) {
      if BODY_BASE <= i < |p| - TAIL {
        assert p[i] == body[i - BODY_BASE];
      } else if i < 29 {
        LegalConstant(i + 2, 0);
      }
    }
  }

  lemma LegalConstant(rd: Reg, value: int)
    requires 0 <= value < 4096
    ensures LegalEncoding(EncI(OP_ITYPE, rd, 0, 0, value))
    ensures LegalEncoding(NOP_INSTR)
  {
    hide EncI, Opcode, Funct3, Funct7Field;
    ShiftField(rd, 0, 0, value);
    ShiftField(0, 0, 0, 0);
    NopWord();
  }

  lemma NopWord()
    ensures NOP_INSTR == EncI(OP_ITYPE, 0, 0, 0, 0)
  {}

  /** The final layout keeps the loop's promises: the padding absorbs the last transfers. */
  lemma LaidOutSafely(p: seq<Word>, body: seq<Word>, targets: set<nat>)
    requires BodyInv(body, targets) && |p| == BODY_BASE + |body| + TAIL && FitsAddi(|p|)
    requires forall i :: 0 <= i < 29 ==> p[i] == EncI(OP_ITYPE, i + 2, 0, 0, 0)
    requires p[29] == EncI(OP_ITYPE, DATA_BASE_GPR, 0, 0, DataBase(|p|))
    requires p[BODY_BASE..|p| - TAIL] == body
    requires forall i :: |p| - TAIL <= i < |p| - 1 ==> p[i] == NOP_INSTR
    requires p[|p| - 1] == EncI(OP_ITYPE, COMPLETION_GPR, 0, 0, COMPLETION_VALUE)
    ensures Safe(p)
  {
    hide EncI, Isa.Decode;
    forall i: nat | i < 29 ensures SetsConstant(p[i], i + 2, 0) {
      DecodeConstant(i + 2, 0);
    }
    DecodeConstant(DATA_BASE_GPR, DataBase(|p|));
    DecodeConstant(COMPLETION_GPR, COMPLETION_VALUE);
    NopIsConstant();
    forall i: nat | BODY_BASE <= i < |p| - TAIL ensures SafeAt(p, i) {
      BodyPlaced(p, body, targets, i);
    }
  }

  lemma BodyPlaced(p: seq<Word>, body: seq<Word>, targets: set<nat>, i: nat)
    requires BodyInv(body, targets) && |p| == BODY_BASE + |body| + TAIL
    requires p[BODY_BASE..|p| - TAIL] == body && SetsConstant(NOP_INSTR, 0, 0)
    requires forall i :: |p| - TAIL <= i < |p| - 1 ==> p[i] == NOP_INSTR
    requires BODY_BASE <= i < |p| - TAIL
    ensures SafeAt(p, i)
  {
    hide Isa.Decode;
    var k := i - BODY_BASE;
    assert forall j :: 0 <= j < |body| ==> body[j] == p[BODY_BASE + j];
    assert BodyOk(body, k);
    var d := Isa.Decode(p[i]);
    if Target(d, i).Some? {
      var t := Target(d, i).value;
      assert t == BODY_BASE + Target(d, k).value && t in targets;
      if t < |p| - TAIL {
        assert p[t] == body[t - BODY_BASE];
      }
    }
  }
}
