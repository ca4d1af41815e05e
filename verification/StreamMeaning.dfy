/** What the generator's random numbers mean, instruction by instruction and without any encoding: the
    reference that `generate` of verif/spike/gen_stream.py is proved to follow for every stream. */
module StreamMeaning {
  import opened Words
  import opened SafeProgram
  import Isa

  type Draws = nat -> nat

  /** The number at a position, reduced into range. */
  function Below(s: Draws, d: nat, n: int): (r: int)
    requires n > 0
    ensures 0 <= r < n
  {
    s(d) % n
  }

  /** What is drawn from some position on, and the position of the next draw. */
  datatype Drawn<T> = Drawn(value: T, next: nat)

  /** The last three destinations, newest first; 0 where an instruction wrote no register. */
  type Recent = r: seq<Reg> | |r| == 3 witness [1, 0, 0]

  /** The destinations of the last three instructions of a body, behind the prologue's write of x1. */
  function LastDestinations(body: seq<Isa.Instr>): Recent {
    if body == [] then [1, 0, 0]
    else [Destination(body[|body| - 1])] + LastDestinations(body[..|body| - 1])[..2]
  }

  // ---- operands ----

  /** Below 60 in 100 a source asks for one of the last three destinations; an empty slot, like the
      other 40, falls back to any of x0..x30. */
  function Source(s: Draws, d: nat, recent: Recent): Drawn<Reg> {
    if Below(s, d, 100) >= 60 then Drawn(Below(s, d + 1, 31), d + 2)
    else if recent[Below(s, d + 1, 3)] != 0 then Drawn(recent[Below(s, d + 1, 3)], d + 2)
    else Drawn(Below(s, d + 2, 31), d + 3)
  }

  /** x0 or one of x2..x30. */
  function DestinationAt(s: Draws, d: nat): Reg { if Below(s, d, 30) == 0 then 0 else Below(s, d, 30) + 1 }

  /** 16, 32 or 48 bytes forward. */
  function OffsetAt(s: Draws, d: nat): int { 16 + 16 * (Below(s, d, 3)) }

  // ---- instructions ----

  function OpAt(s: Draws, d: nat, rd: Reg, rs1: Reg, rs2: Reg): Drawn<Isa.Instr> {
    var k, alternate := Below(s, d, 8), Below(s, d + 1, 2) == 1;
    if k == 0 then Drawn(Isa.Op(if alternate then Isa.SubK else Isa.AddK, rd, rs1, rs2), d + 2)
    else if k == 5 then Drawn(Isa.Op(if alternate then Isa.SraK else Isa.SrlK, rd, rs1, rs2), d + 2)
    else
      var kind := if k == 1 then Isa.SllK else if k == 2 then Isa.SltK else if k == 3 then Isa.SltuK
                  else if k == 4 then Isa.XorK else if k == 6 then Isa.OrK else Isa.AndK;
      Drawn(Isa.Op(kind, rd, rs1, rs2), d + 1)
  }

  /** The shift amount of an arithmetic right shift carries the bit that tells it from a logical one. */
  function OpImmAt(s: Draws, d: nat, rd: Reg, rs1: Reg): Drawn<Isa.Instr> {
    var k, shamt, imm := Below(s, d, 8), Below(s, d + 1, 32), Below(s, d + 1, 4096);
    if k == 6 then Drawn(Isa.OpImm(Isa.SllK, rd, rs1, shamt), d + 2)
    else if k == 7 then
      Drawn(if Below(s, d + 2, 2) == 1 then Isa.OpImm(Isa.SraK, rd, rs1, 1024 + shamt)
            else Isa.OpImm(Isa.SrlK, rd, rs1, shamt), d + 3)
    else
      var kind := if k == 0 then Isa.AddK else if k == 1 then Isa.SltK else if k == 2 then Isa.SltuK
                  else if k == 3 then Isa.XorK else if k == 4 then Isa.OrK else Isa.AndK;
      Drawn(Isa.OpImm(kind, rd, rs1, if imm < 2048 then imm else imm - 4096), d + 2)
  }

  /** An offset is drawn for each of the five loads before the load is chosen. */
  function LoadAt(s: Draws, d: nat, rd: Reg): Drawn<Isa.Instr> {
    var k := Below(s, d + 5, 5);
    Drawn(
      if k == 0 then Isa.Load(Isa.W32, true, rd, 1, Below(s, d, 64) * 4)
      else if k == 1 then Isa.Load(Isa.W16, true, rd, 1, Below(s, d + 1, 128) * 2)
      else if k == 2 then Isa.Load(Isa.W16, false, rd, 1, Below(s, d + 2, 128) * 2)
      else if k == 3 then Isa.Load(Isa.W8, true, rd, 1, Below(s, d + 3, 256))
      else Isa.Load(Isa.W8, false, rd, 1, Below(s, d + 4, 256)), d + 6)
  }

  function StoreAt(s: Draws, d: nat, rs2: Reg): Drawn<Isa.Instr> {
    var k := Below(s, d + 3, 3);
    Drawn(
      if k == 0 then Isa.Store(Isa.W32, 1, rs2, Below(s, d, 64) * 4)
      else if k == 1 then Isa.Store(Isa.W16, 1, rs2, Below(s, d + 1, 128) * 2)
      else Isa.Store(Isa.W8, 1, rs2, Below(s, d + 2, 256)), d + 4)
  }

  function BranchAt(s: Draws, d: nat, rs1: Reg, rs2: Reg): Drawn<Isa.Instr> {
    Drawn(Isa.Branch(if Below(s, d, 2) == 1 then Isa.Ne else Isa.Eq, rs1, rs2, OffsetAt(s, d + 1)), d + 2)
  }

  function JalAt(s: Draws, d: nat, rd: Reg): Drawn<Isa.Instr> { Drawn(Isa.Jal(rd, OffsetAt(s, d)), d + 1) }

  function UpperAt(s: Draws, d: nat, rd: Reg): Drawn<Isa.Instr> {
    var upper := Below(s, d + 1, 0x10_0000);
    Drawn(if Below(s, d, 2) == 1 then Isa.Lui(rd, upper) else Isa.Auipc(rd, upper), d + 2)
  }

  function PairAt(s: Draws, d: nat, rd: Reg): Drawn<seq<Isa.Instr>> {
    var rt: Reg := Below(s, d, 29) + 2;
    Drawn([Isa.Auipc(rt, 0), Isa.Jalr(rd, rt, OffsetAt(s, d + 1))], d + 2)
  }

  // ---- the loop ----

  /** 25 register-register, 20 register-immediate, 17 loads, 13 stores, 10 branches, 5 JALs; the rest of
      the hundred is pairs, and LUI or AUIPC. */
  function WordAt(s: Draws, d: nat, cls: int, rd: Reg, rs1: Reg, rs2: Reg): Drawn<Isa.Instr> {
    if cls < 25 then OpAt(s, d, rd, rs1, rs2)
    else if cls < 45 then OpImmAt(s, d, rd, rs1)
    else if cls < 62 then LoadAt(s, d, rd)
    else if cls < 75 then StoreAt(s, d, rs2)
    else if cls < 85 then BranchAt(s, d, rs1, rs2)
    else if cls < 90 then JalAt(s, d, rd)
    else UpperAt(s, d, rd)
  }

  /** No transfer of the body lands on place `k` of it. */
  ghost predicate Free(body: seq<Isa.Instr>, k: int) {
    forall j :: 0 <= j < |body| ==> Target(body[j], j) != Isa.Some(k)
  }

  /** One turn: four of the hundred classes give a pair, if nothing lands on its second place. */
  ghost function TurnAt(s: Draws, d: nat, body: seq<Isa.Instr>): Drawn<seq<Isa.Instr>> {
    var cls := Below(s, d, 100);
    var rs1 := Source(s, d + 1, LastDestinations(body));
    var rs2 := Source(s, rs1.next, LastDestinations(body));
    var rd := DestinationAt(s, rs2.next);
    if 90 <= cls < 94 && Free(body, |body| + 1) then PairAt(s, rs2.next + 1, rd)
    else
      var one := WordAt(s, rs2.next + 1, cls, rd, rs1.value, rs2.value);
      Drawn([one.value], one.next)
  }

  ghost function BodyAt(s: Draws, d: nat, turns: nat): Drawn<seq<Isa.Instr>> {
    if turns == 0 then Drawn([], d)
    else
      var before := BodyAt(s, d, turns - 1);
      var turn := TurnAt(s, before.next, before.value);
      Drawn(before.value + turn.value, turn.next)
  }
}
