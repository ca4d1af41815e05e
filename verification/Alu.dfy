/** The ALU (rtl/alu.sv): one shared adder serves ADD, SUB and the signed comparison, whose
    sign is corrected by the overflow bit. */
module Alu {
  import opened Words
  import opened Rv32iPkg

  function CondInvB(b: Word, code: AluCode): Word { if code % 2 == 1 then Not(b) else b }
  function Sum(a: Word, b: Word, code: AluCode): Word { Wrap(a + CondInvB(b, code) + code % 2) }
  function Sign(w: Word): bool { w >= 0x8000_0000 }

  predicate IsAddSub(code: AluCode) { code == ALU_ADD || code == ALU_SUB || code == ALU_SLT }

  predicate Overflow(a: Word, b: Word, code: AluCode) {
    !((code % 2 == 1) != (Sign(a) != Sign(b))) && Sign(a) != Sign(Sum(a, b, code)) && IsAddSub(code)
  }

  function ShiftLeft(a: Word, sh: nat): Word { Wrap(a * Pow2(sh)) }

  function ShiftRight(a: Word, sh: nat): (r: Word) {
    DivBounds(a, Pow2(sh));
    a / Pow2(sh)
  }

  lemma DivBounds(a: nat, p: int)
    requires p >= 1
    ensures 0 <= a / p <= a
  {
    var q := a / p;
    assert a == p * q + a % p;
    if q < 0 {
      MulMono(p, q, -1);
    } else if q > 0 {
      MulMono(q, 1, p);
    }
  }

  /** `>>>` on a signed operand: vacated positions are filled with copies of the sign bit. */
  function ShiftRightArith(a: Word, sh: nat): (r: Word)
    requires sh < 32
  {
    ShiftFillBounds(a, sh);
    var q, fill := a / Pow2(sh), 0x1_0000_0000 - Pow2(32 - sh);
    if Sign(a) then q + fill else q
  }

  lemma ShiftFillBounds(a: Word, sh: nat)
    requires sh < 32
    ensures 0 < Pow2(32 - sh) <= 0x1_0000_0000
    ensures 0 <= a / Pow2(sh) < Pow2(32 - sh)
    ensures Pow2(sh) * Pow2(32 - sh) == 0x1_0000_0000
  {
    Pow2Values();
    Pow2Add(sh, 32 - sh);
    var p, q := Pow2(sh), Pow2(32 - sh);
    QuotientBelow(a, p, q);
    MulMono(q, 1, p);
  }

  lemma QuotientBelow(a: nat, p: int, q: int)
    requires p > 0 && a < p * q
    ensures 0 <= a / p < q
  {
    assert a == p * (a / p) + a % p;
    if a / p >= q {
      MulMono(p, q, a / p);
    }
  }

  function Result(a: Word, b: Word, code: AluCode): Word {
    if code == ALU_ADD || code == ALU_SUB then Sum(a, b, code)
    else if code == ALU_AND then Bitwise(AndGate, a, b)
    else if code == ALU_OR then Bitwise(OrGate, a, b)
    else if code == ALU_XOR then Bitwise(XorGate, a, b)
    else if code == ALU_SLT then B2W(Sign(Sum(a, b, code)) != Overflow(a, b, code))
    else if code == ALU_SLL then ShiftLeft(a, b % 32)
    else if code == ALU_SRL then ShiftRight(a, b % 32)
    else if code == ALU_SRA then ShiftRightArith(a, b % 32)
    else if code == ALU_SLTU then B2W(a < b)
    else if code == ALU_PASSB then b
    else 0
  }

  predicate Zero(r: Word) { r == 0 }
  predicate Lt(r: Word) { r % 2 == 1 }

  lemma SubtractCases(a: Word, b: Word)
    ensures Sum(a, b, ALU_SUB) == Sum(a, b, ALU_SLT) == if a >= b then a - b else a - b + 0x1_0000_0000
  {
    DivUnique(a + Not(b) + 1, 0x1_0000_0000, if a >= b then 1 else 0,
      if a >= b then a - b else a - b + 0x1_0000_0000);
  }

  lemma WrapOnce(x: int)
    requires -0x1_0000_0000 <= x < 0x2_0000_0000
    ensures Wrap(x) == if x < 0 then x + 0x1_0000_0000 else if x < 0x1_0000_0000 then x else x - 0x1_0000_0000
  {
    var q := if x < 0 then -1 else if x < 0x1_0000_0000 then 0 else 1;
    DivUnique(x, 0x1_0000_0000, q, x - q * 0x1_0000_0000);
  }

  /** Adding and subtracting through the shared adder, and SLT with its overflow correction, are
      exact on every pair of operands, signed overflow included. */
  lemma AdderSharing(a: Word, b: Word)
    ensures Result(a, b, ALU_ADD) == Wrap(a + b)
    ensures Result(a, b, ALU_SUB) == Wrap(a - b)
    ensures Result(a, b, ALU_SLT) == B2W(Signed(a) < Signed(b))
  {
    SubtractCases(a, b);
    WrapOnce(a - b);
    SignedCompare(a, b);
  }

  lemma SignedCompare(a: Word, b: Word)
    ensures (Sign(Sum(a, b, ALU_SLT)) != Overflow(a, b, ALU_SLT)) == (Signed(a) < Signed(b))
  {
    SubtractCases(a, b);
  }

  /** Filling with sign copies is division of the two's-complement value, rounding down. */
  lemma ArithmeticShift(a: Word, sh: nat)
    requires sh < 32
    ensures ShiftRightArith(a, sh) == Wrap(Signed(a) / Pow2(sh))
  {
    var p, q := Pow2(sh), Pow2(32 - sh);
    ShiftFillBounds(a, sh);
    if Sign(a) {
      NegativeQuotient(a, p, q);
      WrapOnce(a / p - q);
    } else {
      WrapOnce(a / p);
    }
  }

  lemma NegativeQuotient(a: Word, p: int, q: int)
    requires p > 0 && p * q == 0x1_0000_0000
    ensures (a - 0x1_0000_0000) / p == a / p - q
  {
    assert p * (a / p - q) == p * (a / p) - p * q;
    DivUnique(a - 0x1_0000_0000, p, a / p - q, a % p);
  }

  /** Bit `k` of the logic unit's result depends on bit `k` of the operands and on nothing else. */
  lemma LogicBits(g: Gate, a: Word, b: Word, k: nat)
    requires k < 32
    ensures Bit(Bitwise(g, a, b), k) == GateBit(g, Bit(a, k), Bit(b, k))
  {
    CombineBit(g, a, b, 32, k);
  }
}
