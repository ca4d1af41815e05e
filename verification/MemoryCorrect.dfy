/** The RAM's slicing and lane selection against the little-endian byte semantics. */
module MemoryCorrect {
  import opened Words
  import opened Rv32iPkg
  import Dmem
  import Isa
  import MemBus

  lemma IndexSplit(size: int, a: Word)
    requires size >= 4 && size % 4 == 0
    ensures a - Dmem.Index(size, a) == size * (a / size) && (size * (a / size)) % 4 == 0
  {
    var q := a / size;
    var s4 := size / 4;
    assert size * q == 4 * (s4 * q) by {
      Assoc(4, s4, q);
    }
  }

  /** Lane `k` of the aligned word is the byte `k` above the aligned-down address. */
  lemma LaneIsByte(size: int, a: Word, k: int)
    requires size >= 4 && size % 4 == 0 && 0 <= k < 4
    ensures Dmem.Lane(size, a, k) == (a / 4 * 4 + k) % size
  {
    IndexSplit(size, a);
    var i := Dmem.Index(size, a);
    Dmem.LaneBound(size, i, k);
    var base := size * (a / size);
    AlignDown(a, base, i);
    DivUnique(a / 4 * 4 + k, size, a / size, i / 4 * 4 + k);
  }

  lemma AlignDown(a: int, base: int, i: int)
    requires a == base + i && base % 4 == 0
    ensures a / 4 * 4 == base + i / 4 * 4
  {}

  lemma Assoc(x: int, y: int, z: int)
    ensures x * y * z == x * (y * z)
  {}

  lemma LoadBytes4(m: Dmem.Ram, a: nat)
    ensures Isa.LoadBytes(m, a, 1) == m[a % |m|]
    ensures Isa.LoadBytes(m, a, 2) == Dmem.Concat2(m[(a + 1) % |m|], m[a % |m|])
    ensures Isa.LoadBytes(m, a, 4) == Dmem.Concat4(m[(a + 3) % |m|], m[(a + 2) % |m|], m[(a + 1) % |m|], m[a % |m|])
  {
    assert Isa.LoadBytes(m, a + 3, 1) == m[(a + 3) % |m|];
    assert Isa.LoadBytes(m, a + 2, 2) == m[(a + 2) % |m|] as int + 256 * Isa.LoadBytes(m, a + 3, 1);
    assert Isa.LoadBytes(m, a + 1, 3) == m[(a + 1) % |m|] as int + 256 * Isa.LoadBytes(m, a + 2, 2);
    assert Isa.LoadBytes(m, a + 1, 1) == m[(a + 1) % |m|];
  }

  lemma WordReadCorrect(m: Dmem.Ram, a: Word)
    ensures Dmem.WordRead(m, a) == Isa.LoadBytes(m, a / 4 * 4, 4)
  {
    LaneIsByte(|m|, a, 0);
    LaneIsByte(|m|, a, 1);
    LaneIsByte(|m|, a, 2);
    LaneIsByte(|m|, a, 3);
    LoadBytes4(m, a / 4 * 4);
  }

  lemma HalfReadCorrect(m: Dmem.Ram, a: Word)
    requires a % 2 == 0
    ensures Dmem.HalfRead(m, a) == Isa.LoadBytes(m, a, 2)
  {
    LaneIsByte(|m|, a, 0);
    LaneIsByte(|m|, a, 1);
    LaneIsByte(|m|, a, 2);
    LaneIsByte(|m|, a, 3);
    LoadBytes4(m, a);
    HalfOffset(a);
  }

  lemma HalfOffset(a: Word)
    requires a % 2 == 0
    ensures a == if a / 2 % 2 == 1 then a / 4 * 4 + 2 else a / 4 * 4
  {}

  lemma ExtendByte(b: int)
    requires 0 <= b < 0x100
    ensures Wrap(SignedField(b, 0x80)) == if b < 0x80 then b else 0xFFFF_FF00 + b
  {}

  lemma ExtendHalf(h: int)
    requires 0 <= h < 0x1_0000
    ensures Wrap(SignedField(h, 0x8000)) == if h < 0x8000 then h else 0xFFFF_0000 + h
  {}

  lemma LoadBounds(m: Dmem.Ram, a: nat)
    ensures Isa.LoadBytes(m, a, 1) < 0x100 && Isa.LoadBytes(m, a, 2) < 0x1_0000
    ensures Isa.LoadBytes(m, a, 4) < 0x1_0000_0000
  {
    Pow2Values();
  }

  lemma ByteLoadCorrect(m: Dmem.Ram, a: Word)
    ensures Dmem.Read(m, a, 0) == Isa.ReadRam(m, Isa.W8, true, a)
    ensures Dmem.Read(m, a, 4) == Isa.ReadRam(m, Isa.W8, false, a)
  {
    hide Isa.LoadBytes, Dmem.HalfRead, Dmem.WordRead, Dmem.Index, Wrap, SignedField;
    var b: int := m[Dmem.Index(|m|, a)];
    assert b == Isa.LoadBytes(m, a, 1) by {
      ByteReadCorrect(m, a);
    }
    ExtendByte(b);
    WrapNoop(b);
  }

  lemma ByteReadCorrect(m: Dmem.Ram, a: Word)
    ensures m[Dmem.Index(|m|, a)] == Isa.LoadBytes(m, a, 1)
  {
    hide Isa.LoadBytes;
    LoadBytes4(m, a);
  }

  lemma HalfLoadCorrect(m: Dmem.Ram, a: Word)
    requires a % 2 == 0
    ensures Dmem.Read(m, a, 1) == Isa.ReadRam(m, Isa.W16, true, a)
    ensures Dmem.Read(m, a, 5) == Isa.ReadRam(m, Isa.W16, false, a)
  {
    hide Isa.LoadBytes, Dmem.HalfRead, Dmem.WordRead, Dmem.Index, Wrap, SignedField;
    var h := Dmem.HalfRead(m, a);
    HalfReadCorrect(m, a);
    ExtendHalf(h);
    WrapNoop(h);
  }

  lemma WordLoadCorrect(m: Dmem.Ram, a: Word, funct3: int, w: Isa.Width)
    requires funct3 !in {0, 1, 4, 5} && (w.Reserved? || (w.W32? && a % 4 == 0))
    ensures Dmem.Read(m, a, funct3) == Isa.ReadRam(m, w, false, a)
  {
    hide Isa.LoadBytes, Dmem.WordRead;
    WordReadCorrect(m, a);
    LoadBounds(m, a / 4 * 4);
    assert Isa.Start(w, a) == a / 4 * 4 && Isa.Size(w) == 4;
  }

  /** Every aligned RAM load returns the addressed bytes, little-endian and extended as its width says. */
  lemma RamReadCorrect(m: Dmem.Ram, a: Word, funct3: int)
    requires 0 <= funct3 < 8 && Isa.Aligned(Isa.LoadWidth(funct3), a)
    ensures Dmem.Read(m, a, funct3) == Isa.ReadRam(m, Isa.LoadWidth(funct3), funct3 < 3, a)
  {
    if funct3 == 0 || funct3 == 4 {
      ByteLoadCorrect(m, a);
    } else if funct3 == 1 || funct3 == 5 {
      HalfLoadCorrect(m, a);
    } else {
      WordLoadCorrect(m, a, funct3, Isa.LoadWidth(funct3));
      assert Isa.ReadRam(m, Isa.LoadWidth(funct3), funct3 < 3, a) ==
             Isa.ReadRam(m, Isa.LoadWidth(funct3), false, a);
    }
  }

  /** The same through the bus: RAM, or the addressed device register. */
  lemma LoadCorrect(m: MemBus.Mem, a: Word, funct3: int)
    requires 0 <= funct3 < 8 && Isa.Aligned(Isa.LoadWidth(funct3), a)
    ensures MemBus.Read(m, a, funct3) == Isa.ReadMem(m, Isa.LoadWidth(funct3), funct3 < 3, a)
  {
    hide Dmem.Read, Isa.ReadRam, Isa.Aligned, Isa.LoadWidth;
    RamReadCorrect(m.ram, a, funct3);
  }

  lemma StoreBytes4(m: Dmem.Ram, a: nat, v: nat)
    ensures Isa.StoreBytes(m, a, v, 1) == m[a % |m| := v % 256]
    ensures Isa.StoreBytes(m, a, v, 2) == m[a % |m| := v % 256][(a + 1) % |m| := v / 256 % 256]
    ensures Isa.StoreBytes(m, a, v, 4) ==
            m[a % |m| := v % 256][(a + 1) % |m| := v / 256 % 256]
             [(a + 2) % |m| := v / 256 / 256 % 256][(a + 3) % |m| := v / 256 / 256 / 256 % 256]
  {
    var m1 := m[a % |m| := v % 256];
    var m2 := m1[(a + 1) % |m| := v / 256 % 256];
    var m3 := m2[(a + 2) % |m| := v / 256 / 256 % 256];
    assert Isa.StoreBytes(m1, a + 1, v / 256, 1) == m2;
    assert Isa.StoreBytes(m3, a + 3, v / 256 / 256 / 256, 1) == m3[(a + 3) % |m| := v / 256 / 256 / 256 % 256];
    assert Isa.StoreBytes(m2, a + 2, v / 256 / 256, 2) == Isa.StoreBytes(m3, a + 3, v / 256 / 256 / 256, 1);
    assert Isa.StoreBytes(m1, a + 1, v / 256, 3) == Isa.StoreBytes(m2, a + 2, v / 256 / 256, 2);
  }

  lemma RamWriteCorrect(m: Dmem.Ram, a: Word, wd: Word, funct3: int)
    requires 0 <= funct3 < 8 && Isa.Aligned(Isa.StoreWidth(funct3), a)
    ensures var w := Isa.StoreWidth(funct3);
            Dmem.Write(m, a, wd, funct3) == Isa.StoreBytes(m, Isa.Start(w, a), wd, Isa.Size(w))
  {
    hide Dmem.Write, Isa.StoreBytes;
    if funct3 == 0 {
      ByteWriteCorrect(m, a, wd);
    } else if funct3 == 1 {
      HalfWriteCorrect(m, a, wd);
    } else {
      WordWriteCorrect(m, a, wd, funct3);
    }
  }

  lemma ByteWriteCorrect(m: Dmem.Ram, a: Word, wd: Word)
    ensures Dmem.Write(m, a, wd, 0) == Isa.StoreBytes(m, a, wd, 1)
  {
    hide Isa.StoreBytes;
    StoreBytes4(m, a, wd);
  }

  lemma HalfWriteCorrect(m: Dmem.Ram, a: Word, wd: Word)
    requires a % 2 == 0
    ensures Dmem.Write(m, a, wd, 1) == Isa.StoreBytes(m, a, wd, 2)
  {
    hide Isa.StoreBytes, Dmem.Lane;
    LaneIsByte(|m|, a, 0);
    LaneIsByte(|m|, a, 1);
    LaneIsByte(|m|, a, 2);
    LaneIsByte(|m|, a, 3);
    StoreBytes4(m, a, wd);
    HalfOffset(a);
  }

  lemma WordWriteCorrect(m: Dmem.Ram, a: Word, wd: Word, funct3: int)
    requires funct3 !in {0, 1}
    ensures Dmem.Write(m, a, wd, funct3) == Isa.StoreBytes(m, a / 4 * 4, wd, 4)
  {
    hide Isa.StoreBytes, Dmem.Lane;
    LaneIsByte(|m|, a, 0);
    LaneIsByte(|m|, a, 1);
    LaneIsByte(|m|, a, 2);
    LaneIsByte(|m|, a, 3);
    StoreBytes4(m, a / 4 * 4, wd);
    assert wd / 256 / 256 == wd / 0x1_0000 && wd / 256 / 256 / 256 == wd / 0x100_0000;
  }

  /** Every aligned store, to RAM or to a device, has exactly its architectural effect. */
  lemma StoreCorrect(m: MemBus.Mem, a: Word, wd: Word, funct3: int)
    requires 0 <= funct3 < 8 && Isa.Aligned(Isa.StoreWidth(funct3), a)
    ensures MemBus.Next(m, true, a, wd, funct3) ==
            Isa.StepMem(m, Isa.Some(Isa.StoreReq(Isa.StoreWidth(funct3), a, wd)))
  {
    hide Isa.StoreBytes, Dmem.Write, Isa.Aligned, Isa.StoreWidth, Isa.Start, Isa.Size, Wrap;
    RamWriteCorrect(m.ram, a, wd, funct3);
    DeviceRegisters(a);
  }

  /** Inside a device window the low four address bits tell the registers apart. */
  lemma DeviceRegisters(a: Word)
    ensures MemBus.IsClint(a) ==> (a % 16 == 0 <==> a == CLINT_BASE) && (a % 16 == 4 <==> a == CLINT_BASE + 4)
    ensures MemBus.IsUart(a) ==> (a % 16 == 0 <==> a == UART_BASE)
  {}

  lemma NoStoreCorrect(m: MemBus.Mem, a: Word, wd: Word, funct3: int)
    ensures MemBus.Next(m, false, a, wd, funct3) == Isa.StepMem(m, Isa.None)
  {}

  // ---- the byte map itself ----

  /** The index of the byte `k` above address `a`. */
  function At(size: int, a: nat, k: nat): (i: nat)
    requires size > 0
    ensures i < size
  {
    (a + k) % size
  }

  /** Byte `j` is none of the `n` bytes from `a` up. */
  ghost predicate Outside(size: int, a: nat, n: nat, j: nat)
    requires size > 0
  {
    forall k: nat :: k < n ==> At(size, a, k) != j
  }

  lemma OutsideRest(size: int, a: nat, n: nat, j: nat)
    requires size > 0 && n > 0 && Outside(size, a, n, j)
    ensures a % size != j && Outside(size, a + 1, n - 1, j)
  {
    assert At(size, a, 0) != j;
    var b, n' := a + 1, n - 1;
    forall k: nat | k < n' ensures At(size, b, k) != j {
      assert At(size, a, k + 1) != j;
    }
  }

  /** A store leaves every byte outside its range alone. */
  lemma {:induction false} StoreFrame(m: Dmem.Ram, a: nat, v: nat, n: nat, j: nat)
    requires j < |m| && Outside(|m|, a, n, j)
    ensures Isa.StoreBytes(m, a, v, n)[j] == m[j]
    decreases n
  {
    if n > 0 {
      OutsideRest(|m|, a, n, j);
      StoreFrame(m[a % |m| := v % 256], a + 1, v / 256, n - 1, j);
    }
  }

  lemma NearbyIndicesDiffer(size: int, a: nat, k: nat)
    requires 0 < k < size
    ensures a % size != (a + k) % size
  {
    var q, i := a / size, a % size;
    assert a == size * q + i;
    if i + k < size {
      DivUnique(a + k, size, q, i + k);
    } else {
      assert size * (q + 1) == size * q + size;
      DivUnique(a + k, size, q + 1, i + k - size);
    }
  }

  /** The bytes of two RAMs agree on the `n` bytes from `a` up. */
  ghost predicate SameBytes(m: Dmem.Ram, m': Dmem.Ram, a: nat, n: nat)
    requires |m| == |m'|
  {
    forall k: nat :: k < n ==> m[At(|m|, a, k)] == m'[At(|m|, a, k)]
  }

  lemma {:induction false} LoadDependsOnBytes(m: Dmem.Ram, m': Dmem.Ram, a: nat, n: nat)
    requires |m| == |m'| && SameBytes(m, m', a, n)
    ensures Isa.LoadBytes(m, a, n) == Isa.LoadBytes(m', a, n)
    decreases n
  {
    if n > 0 {
      assert m[At(|m|, a, 0)] == m'[At(|m|, a, 0)];
      var b, n' := a + 1, n - 1;
      forall k: nat | k < n' ensures m[At(|m|, b, k)] == m'[At(|m|, b, k)] {
        assert m[At(|m|, a, k + 1)] == m'[At(|m|, a, k + 1)];
      }
      LoadDependsOnBytes(m, m', b, n');
    }
  }

  /** Loading back what was just stored gives its low bytes. */
  lemma {:induction false} LoadAfterStore(m: Dmem.Ram, a: nat, v: nat, n: nat)
    requires n <= |m|
    ensures Isa.LoadBytes(Isa.StoreBytes(m, a, v, n), a, n) == v % Pow2(8 * n)
    decreases n
  {
    if n == 0 {
      assert Pow2(0) == 1;
    } else {
      var m1 := m[a % |m| := v % 256];
      FirstByteOutside(|m|, a, n);
      StoreFrame(m1, a + 1, v / 256, n - 1, a % |m|);
      LoadAfterStore(m1, a + 1, v / 256, n - 1);
      SplitModulus(v, n);
    }
  }

  lemma FirstByteOutside(size: int, a: nat, n: nat)
    requires 0 < n <= size
    ensures Outside(size, a + 1, n - 1, a % size)
  {
    var b, n' := a + 1, n - 1;
    forall k: nat | k < n' ensures At(size, b, k) != a % size {
      NearbyIndicesDiffer(size, a, k + 1);
    }
  }

  lemma SplitModulus(v: nat, n: nat)
    requires n > 0
    ensures v % Pow2(8 * n) == v % 256 + 256 * (v / 256 % Pow2(8 * (n - 1)))
  {
    Pow2Values();
    Pow2Add(8 * (n - 1), 8);
    SplitRemainder(v, Pow2(8 * (n - 1)));
  }

  lemma SplitRemainder(v: nat, p: int)
    requires p >= 1
    ensures v % (p * 256) == v % 256 + 256 * (v / 256 % p)
  {
    var u := v / 256;
    var q, r := u / p, u % p;
    var t := p * q;
    assert u == t + r;
    assert p * 256 * q == 256 * t;
    DivUnique(v, p * 256, q, v % 256 + 256 * r);
  }

  /** A store does not disturb a load from bytes it does not touch. */
  lemma LoadAfterOtherStore(m: Dmem.Ram, a: nat, v: nat, n: nat, b: nat, k: nat)
    requires forall i: nat :: i < k ==> Outside(|m|, a, n, At(|m|, b, i))
    ensures Isa.LoadBytes(Isa.StoreBytes(m, a, v, n), b, k) == Isa.LoadBytes(m, b, k)
  {
    var m' := Isa.StoreBytes(m, a, v, n);
    forall i: nat | i < k ensures m'[At(|m|, b, i)] == m[At(|m|, b, i)] {
      StoreFrame(m, a, v, n, At(|m|, b, i));
    }
    LoadDependsOnBytes(m', m, b, k);
  }
}
