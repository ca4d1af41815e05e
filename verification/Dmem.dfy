/** Byte-addressable data RAM with sub-word stores and extending loads (rtl/dmem.sv). */
module Dmem {
  import opened Words

  /** RAM contents; the size is any positive multiple of four, as every power of two above two is. */
  type Ram = m: seq<Byte> | |m| >= 4 && |m| % 4 == 0 witness [0, 0, 0, 0]

  const F3_B := 0
  const F3_H := 1
  const F3_W := 2
  const F3_BU := 4
  const F3_HU := 5

  // ---- the RTL: the word that contains the addressed byte, then slices of it ----

  function Index(size: int, a: Word): (i: int)
    requires size > 0
    ensures 0 <= i < size
  {
    a % size
  }

  /** The index of byte `k` of the aligned word containing `a`. */
  function Lane(size: int, a: Word, k: int): (i: int)
    requires size >= 4 && size % 4 == 0 && 0 <= k < 4
    ensures 0 <= i < size
  {
    LaneBound(size, Index(size, a), k);
    Index(size, a) / 4 * 4 + k
  }

  lemma LaneBound(size: int, i: int, k: int)
    requires size % 4 == 0 && 0 <= i < size && 0 <= k < 4
    ensures 0 <= i / 4 * 4 + k < size
  {}

  function Concat2(b1: int, b0: int): int { b1 * 0x100 + b0 }

  function Concat4(b3: int, b2: int, b1: int, b0: int): int {
    b3 * 0x100_0000 + b2 * 0x1_0000 + b1 * 0x100 + b0
  }

  function WordRead(m: Ram, a: Word): Word {
    Concat4(m[Lane(|m|, a, 3)], m[Lane(|m|, a, 2)], m[Lane(|m|, a, 1)], m[Lane(|m|, a, 0)])
  }

  function HalfRead(m: Ram, a: Word): (h: int)
    ensures 0 <= h < 0x1_0000
  {
    if a / 2 % 2 == 1 then Concat2(m[Lane(|m|, a, 3)], m[Lane(|m|, a, 2)])
    else Concat2(m[Lane(|m|, a, 1)], m[Lane(|m|, a, 0)])
  }

  function Read(m: Ram, a: Word, funct3: int): Word {
    var b: int := m[Index(|m|, a)];
    var h := HalfRead(m, a);
    if funct3 == F3_B then (if b < 0x80 then b else 0xFFFF_FF00 + b)
    else if funct3 == F3_H then (if h < 0x8000 then h else 0xFFFF_0000 + h)
    else if funct3 == F3_W then WordRead(m, a)
    else if funct3 == F3_BU then b
    else if funct3 == F3_HU then h
    else WordRead(m, a)
  }

  function Write(m: Ram, a: Word, wd: Word, funct3: int): (r: Ram)
    ensures |r| == |m|
  {
    var b0, b1, b2, b3 := wd % 0x100, wd / 0x100 % 0x100, wd / 0x1_0000 % 0x100, wd / 0x100_0000;
    if funct3 == F3_B then m[Index(|m|, a) := b0]
    else if funct3 == F3_H then
      var off := a / 2 % 2 * 2;
      m[Lane(|m|, a, off) := b0][Lane(|m|, a, off + 1) := b1]
    else
      m[Lane(|m|, a, 0) := b0][Lane(|m|, a, 1) := b1][Lane(|m|, a, 2) := b2][Lane(|m|, a, 3) := b3]
  }

  class RamArray {
    const mem: array<Byte>

    ghost predicate Valid() { mem.Length >= 4 && mem.Length % 4 == 0 }

    function State(): Ram
      requires mem.Length >= 4 && mem.Length % 4 == 0
      reads mem
    {
      mem[..]
    }

    constructor (init: Ram)
      ensures Valid() && fresh(mem) && State() == init
    {
      mem := new Byte[|init|](i requires 0 <= i < |init| => init[i]);
      new;
      assert mem[..] == init;
    }

    method Clock(we: bool, a: Word, wd: Word, funct3: int)
      requires Valid()
      modifies mem
      ensures State() == if we then Write(old(State()), a, wd, funct3) else old(State())
    {
      if we {
        var n := mem.Length;
        if funct3 == F3_B {
          mem[Index(n, a)] := wd % 0x100;
        } else if funct3 == F3_H {
          var off := a / 2 % 2 * 2;
          mem[Lane(n, a, off)] := wd % 0x100;
          mem[Lane(n, a, off + 1)] := wd / 0x100 % 0x100;
        } else {
          mem[Lane(n, a, 0)] := wd % 0x100;
          mem[Lane(n, a, 1)] := wd / 0x100 % 0x100;
          mem[Lane(n, a, 2)] := wd / 0x1_0000 % 0x100;
          mem[Lane(n, a, 3)] := wd / 0x100_0000;
        }
      }
    }
  }
}
