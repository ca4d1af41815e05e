/** 32-bit machine words as integers with explicit wrap-around, and the bit-level views
    (two's complement, single bits, bitwise operators, shifts) that the core needs. */
module Words {

  type Word = w: int | 0 <= w < 0x1_0000_0000
  type Byte = b: int | 0 <= b < 0x100
  /** A register index, five bits wide. */
  type Reg = r: int | 0 <= r < 32

  function Wrap(x: int): Word { x % 0x1_0000_0000 }

  /** `a + b` as a 32-bit adder computes it. */
  function Add(a: Word, b: Word): Word { Wrap(a + b) }

  function Bit(w: Word, k: nat): (b: int)
    ensures b == 0 || b == 1
  {
    (w / Pow2(k)) % 2
  }

  function B2W(b: bool): (w: Word) { if b then 1 else 0 }

  /** The two's-complement value of a word. */
  function Signed(w: Word): int { if w < 0x8000_0000 then w else w - 0x1_0000_0000 }

  function Pow2(k: nat): (p: int)
    ensures p >= 1
    decreases k
  {
    if k == 0 then 1 else 2 * Pow2(k - 1)
  }

  lemma {:induction false} Pow2Add(a: nat, b: nat)
    ensures Pow2(a + b) == Pow2(a) * Pow2(b)
  {
    if b == 0 {
    } else {
      Pow2Add(a, b - 1);
      assert Pow2(a + b) == 2 * Pow2(a + b - 1);
    }
  }

  lemma Pow2Values()
    ensures Pow2(8) == 0x100 && Pow2(12) == 0x1000 && Pow2(16) == 0x1_0000
    ensures Pow2(31) == 0x8000_0000 && Pow2(32) == 0x1_0000_0000
  {
    assert Pow2(4) == 16;
    Pow2Add(4, 4);
    Pow2Add(8, 4);
    Pow2Add(8, 8);
    Pow2Add(16, 15);
    Pow2Add(8, 7);
    assert Pow2(7) == 128 by { Pow2Add(4, 3); }
    Pow2Add(16, 16);
  }

  /** The three two-input gates of the logic unit. */
  datatype Gate = AndGate | OrGate | XorGate

  function GateBit(g: Gate, x: int, y: int): (b: int)
    requires (x == 0 || x == 1) && (y == 0 || y == 1)
    ensures b == 0 || b == 1
  {
    match g
    case AndGate => if x == 1 && y == 1 then 1 else 0
    case OrGate => if x == 1 || y == 1 then 1 else 0
    case XorGate => if x != y then 1 else 0
  }

  /** The `n` low bits of `a` and `b` combined by a gate, bit by bit. */
  function Combine(g: Gate, a: nat, b: nat, n: nat): (r: nat)
    ensures r < Pow2(n)
    decreases n
  {
    if n == 0 then 0 else GateBit(g, a % 2, b % 2) + 2 * Combine(g, a / 2, b / 2, n - 1)
  }

  function Bitwise(g: Gate, a: Word, b: Word): Word {
    Pow2Values();
    Combine(g, a, b, 32)
  }

  /** One's complement. */
  function Not(a: Word): Word { 0xFFFF_FFFF - a }

  lemma {:induction false} CombineBit(g: Gate, a: nat, b: nat, n: nat, k: nat)
    requires k < n
    ensures Combine(g, a, b, n) / Pow2(k) % 2 == GateBit(g, a / Pow2(k) % 2, b / Pow2(k) % 2)
    decreases k
  {
    var c, half := Combine(g, a, b, n), Combine(g, a / 2, b / 2, n - 1);
    assert c == GateBit(g, a % 2, b % 2) + 2 * half;
    if k == 0 {
      assert Pow2(0) == 1;
      assert c % 2 == GateBit(g, a % 2, b % 2);
    } else {
      assert c / 2 == half;
      HalveThenShift(a, k);
      HalveThenShift(b, k);
      HalveThenShift(c, k);
      CombineBit(g, a / 2, b / 2, n - 1, k - 1);
    }
  }

  lemma HalveThenShift(a: nat, k: nat)
    requires k > 0
    ensures a / Pow2(k) == a / 2 / Pow2(k - 1)
  {
    DivDiv(a, 2, Pow2(k - 1));
  }

  lemma DivDiv(a: nat, b: int, c: int)
    requires b > 0 && c > 0
    ensures b * c > 0 && a / (b * c) == a / b / c
  {
    MulPos(b, c);
    var m, r1 := a / b, a % b;
    var q, r2 := m / c, m % c;
    assert a == b * m + r1 && m == c * q + r2;
    Distribute(b, c, q, r2);
    RemainderBelow(b, c, r1, r2);
    DivUnique(a, b * c, q, b * r2 + r1);
  }

  lemma Distribute(b: int, c: int, q: int, r: int)
    ensures b * (c * q + r) == b * c * q + b * r
  {}

  lemma RemainderBelow(b: int, c: int, r1: int, r2: int)
    requires 0 <= r1 < b && 0 <= r2 < c
    ensures 0 <= b * r2 + r1 < b * c
  {
    MulMono(b, 0, r2);
    MulMono(b, r2, c - 1);
    assert b * (c - 1) == b * c - b;
  }

  lemma MulPos(b: int, c: int)
    requires b > 0 && c > 0
    ensures b * c > 0
  {}

  lemma MulMono(b: int, x: int, y: int)
    requires b > 0 && x <= y
    ensures b * x <= b * y
  {}

  /** Quotient and remainder are determined by the division equation. */
  lemma DivUnique(a: int, d: int, q: int, r: int)
    requires d > 0 && a == d * q + r && 0 <= r < d
    ensures a / d == q && a % d == r
  {
    var q' := a / d;
    var r' := a % d;
    assert d * q + r == d * q' + r';
    assert d * (q + 1) == d * q + d;
    assert d * (q' + 1) == d * q' + d;
    if q < q' {
      MulMono(d, q + 1, q');
    } else if q > q' {
      MulMono(d, q' + 1, q);
    }
  }

  /** A `bits`-wide unsigned field read as a two's-complement number. */
  function SignedField(v: int, half: int): int { if v < half then v else v - 2 * half }

  lemma WrapNoop(x: Word)
    ensures Wrap(x) == x
  {}

  lemma WrapAddLeft(x: int, b: int)
    ensures Wrap(Wrap(x) + b) == Wrap(x + b)
  {
    var q := x / 0x1_0000_0000;
    assert x == q * 0x1_0000_0000 + Wrap(x);
  }
}
