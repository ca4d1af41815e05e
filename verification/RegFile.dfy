/** The register file with its read-during-write bypass (rtl/regfile.sv). */
module RegFile {
  import opened Words

  /** Thirty-two words; entry 0 of the array is storage that no read ever returns. */
  type Regs = r: seq<Word> | |r| == 32 witness seq(32, _ => 0)

  function Write(rf: Regs, we: bool, a3: Reg, wd3: Word): Regs {
    if we then rf[a3 := wd3] else rf
  }

  function Read(rf: Regs, a: Reg, we: bool, a3: Reg, wd3: Word): Word {
    if a == 0 then 0 else if we && a3 == a then wd3 else rf[a]
  }

  /** The architectural value of a register in a register file at rest. */
  function Get(rf: Regs, a: Reg): Word { if a == 0 then 0 else rf[a] }

  /** A decode-stage read returns what the array will hold after this cycle's write: the read that
      the distance-3 dependency relies on. */
  lemma BypassReadsNextState(rf: Regs, a: Reg, we: bool, a3: Reg, wd3: Word)
    ensures Read(rf, a, we, a3, wd3) == Get(Write(rf, we, a3, wd3), a)
  {}

  class RegArray {
    const rf: array<Word>

    ghost predicate Valid() { rf.Length == 32 }

    function State(): Regs
      requires rf.Length == 32
      reads rf
    {
      rf[..]
    }

    constructor (init: Regs)
      ensures Valid() && fresh(rf) && State() == init
    {
      rf := new Word[32](i requires 0 <= i < 32 => init[i]);
      new;
      assert rf[..] == init;
    }

    method Clock(we3: bool, a3: Reg, wd3: Word)
      requires Valid()
      modifies rf
      ensures State() == Write(old(State()), we3, a3, wd3)
    {
      if we3 {
        rf[a3] := wd3;
      }
    }
  }
}
