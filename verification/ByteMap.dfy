/** The RAM as a byte map: after any sequence of stores of any widths, each byte is what the last store
    to cover it put there, and a load of any width reads those bytes. */
module ByteMap {
  import opened Words
  import opened MemoryCorrect
  import Dmem
  import Isa

  /** A store as it arrives at the RAM. */
  datatype Store = Store(addr: Word, data: Word, funct3: int)

  /** The execute stage traps the others. */
  predicate Allowed(s: Store) { 0 <= s.funct3 < 8 && Isa.Aligned(Isa.StoreWidth(s.funct3), s.addr) }

  predicate AllAllowed(stores: seq<Store>) { forall i :: 0 <= i < |stores| ==> Allowed(stores[i]) }

  /** The byte array after the stores. */
  function Written(m: Dmem.Ram, stores: seq<Store>): (r: Dmem.Ram)
    ensures |r| == |m|
  {
    if stores == [] then m
    else
      var s := stores[|stores| - 1];
      Dmem.Write(Written(m, stores[..|stores| - 1]), s.addr, s.data, s.funct3)
  }

  // ---- the byte map ----

  function FirstByte(s: Store): Word { Isa.Start(Isa.StoreWidth(s.funct3), s.addr) }
  function ByteCount(s: Store): nat { Isa.Size(Isa.StoreWidth(s.funct3)) }

  /** How far byte `j` is above the store's first byte, around the end of the RAM. */
  function Offset(size: nat, s: Store, j: int): (k: nat)
    requires size > 0
  {
    (j - FirstByte(s)) % size
  }

  predicate Covers(size: nat, s: Store, j: int)
    requires size > 0
  {
    Offset(size, s, j) < ByteCount(s)
  }

  /** What the last store to cover byte `j` put there, or its first value. */
  function LastByte(m: Dmem.Ram, stores: seq<Store>, j: nat): Byte
    requires j < |m|
  {
    if stores == [] then m[j]
    else
      var s := stores[|stores| - 1];
      if Covers(|m|, s, j) then s.data / Pow2(8 * Offset(|m|, s, j)) % 0x100
      else LastByte(m, stores[..|stores| - 1], j)
  }

  /** The last bytes written at the `n` places from `a` up, as a number. */
  function LastBytes(m: Dmem.Ram, stores: seq<Store>, a: nat, n: nat): nat
    decreases n
  {
    if n == 0 then 0
    else
      var b: int := LastByte(m, stores, At(|m|, a, 0));
      b + 0x100 * LastBytes(m, stores, a + 1, n - 1)
  }

  // ---- the RAM is that map ----

  /** Byte `k` of a store of `n` bytes is byte `k` of the value. */
  lemma {:induction false} StoredByte(m: Dmem.Ram, a: nat, v: nat, n: nat, k: nat)
    requires k < n <= |m|
    ensures Isa.StoreBytes(m, a, v, n)[At(|m|, a, k)] == v / Pow2(8 * k) % 256
    decreases n
  {
    var m1 := m[a % |m| := v % 256];
    if k == 0 {
      FirstByteOutside(|m|, a, n);
      StoreFrame(m1, a + 1, v / 256, n - 1, a % |m|);
      assert Pow2(0) == 1;
    } else {
      StoredByte(m1, a + 1, v / 256, n - 1, k - 1);
      assert At(|m|, a + 1, k - 1) == At(|m|, a, k);
      ShiftByBytes(v, k);
    }
  }

  lemma ShiftByBytes(v: nat, k: nat)
    requires k > 0
    ensures v / 256 / Pow2(8 * (k - 1)) == v / Pow2(8 * k)
  {
    hide Pow2;
    Pow2Values();
    Pow2Add(8, 8 * (k - 1));
    DivDiv(v, 256, Pow2(8 * (k - 1)));
  }

  /** Offsets count bytes from the first one up. */
  lemma OffsetIsAt(size: nat, s: Store, j: nat, k: nat)
    requires j < size && k < size
    ensures Offset(size, s, j) == k <==> At(size, FirstByte(s), k) == j
  {
    hide FirstByte;
    var a := FirstByte(s);
    if Offset(size, s, j) == k {
      var q := (j - a) / size;
      assert a + k == size * -q + j;
      DivUnique(a + k, size, -q, j);
    }
    if At(size, a, k) == j {
      var q := (a + k) / size;
      assert j - a == size * -q + k;
      DivUnique(j - a, size, -q, k);
    }
  }

  lemma OneStore(m: Dmem.Ram, s: Store, j: nat)
    requires Allowed(s) && j < |m|
    ensures Dmem.Write(m, s.addr, s.data, s.funct3)[j] ==
            if Covers(|m|, s, j) then s.data / Pow2(8 * Offset(|m|, s, j)) % 0x100 else m[j]
  {
    hide Dmem.Write, Isa.StoreBytes, Offset, Isa.Start, Pow2;
    RamWriteCorrect(m, s.addr, s.data, s.funct3);
    var a, n, k := FirstByte(s), ByteCount(s), Offset(|m|, s, j);
    if Covers(|m|, s, j) {
      OffsetIsAt(|m|, s, j, k);
      StoredByte(m, a, s.data, n, k);
    } else {
      forall i: nat | i < n ensures At(|m|, a, i) != j {
        OffsetIsAt(|m|, s, j, i);
      }
      StoreFrame(m, a, s.data, n, j);
    }
  }

  /** The last writer wins, byte by byte, whatever widths and overlaps. */
  lemma {:induction false} LastWriterWins(m: Dmem.Ram, stores: seq<Store>, j: nat)
    requires AllAllowed(stores) && j < |m|
    ensures Written(m, stores)[j] == LastByte(m, stores, j)
    decreases |stores|
  {
    hide Allowed, Covers, Offset, Dmem.Write, Pow2;
    if stores != [] {
      var front, s := stores[..|stores| - 1], stores[|stores| - 1];
      LastWriterWins(m, front, j);
      OneStore(Written(m, front), s, j);
    }
  }

  lemma {:induction false} BytesAreLast(m: Dmem.Ram, stores: seq<Store>, a: nat, n: nat)
    requires AllAllowed(stores)
    ensures Isa.LoadBytes(Written(m, stores), a, n) == LastBytes(m, stores, a, n)
    decreases n
  {
    hide AllAllowed, LastByte, Written;
    if n > 0 {
      LastWriterWins(m, stores, At(|m|, a, 0));
      BytesAreLast(m, stores, a + 1, n - 1);
    }
  }

  /** After any sequence of stores, SB, SH and SW in any mixture, every load, LB, LH, LW, LBU or LHU,
      returns the last bytes written at its place, extended as its width says. */
  lemma LoadReturnsLastBytes(m: Dmem.Ram, stores: seq<Store>, a: Word, funct3: int)
    requires AllAllowed(stores) && 0 <= funct3 < 8 && Isa.Aligned(Isa.LoadWidth(funct3), a)
    ensures var w := Isa.LoadWidth(funct3);
            Dmem.Read(Written(m, stores), a, funct3) ==
            Isa.Extended(w, funct3 < 3, LastBytes(m, stores, Isa.Start(w, a), Isa.Size(w)))
  {
    hide AllAllowed, Dmem.Read, Written, LastBytes, Isa.LoadBytes, Isa.Extended, Isa.LoadWidth, Isa.Start,
      Isa.Size, Isa.Aligned;
    var w := Isa.LoadWidth(funct3);
    RamReadCorrect(Written(m, stores), a, funct3);
    BytesAreLast(m, stores, Isa.Start(w, a), Isa.Size(w));
  }
}
