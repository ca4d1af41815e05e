/** Cutting the reference simulator's commit log down to the program's own retirements: the stop and
    trim logic of `spike_trace` in verif/spike/gen_stream.py. */
module SpikeTrace {
  import opened Words
  import opened Scoreboard
  import Isa

  const ENTRY_PC: Word := 0

  /** The log from the first row at the entry point up to the first sentinel. */
  ghost predicate IsCut(log: seq<Row>, sentinel: Word, start: nat, last: nat) {
    && start <= last < |log|
    && log[last].instr == sentinel && (forall j :: 0 <= j < last ==> log[j].instr != sentinel)
    && log[start].pc == ENTRY_PC && (forall j :: 0 <= j < start ==> log[j].pc != ENTRY_PC)
  }

  ghost predicate Trimmed(log: seq<Row>, sentinel: Word, r: Isa.Option<seq<Row>>) {
    match r
    case Some(rows) => exists start: nat, last: nat :: IsCut(log, sentinel, start, last) && rows == log[start..last + 1]
    case None => forall start: nat, last: nat :: !IsCut(log, sentinel, start, last)
  }

  /** Nothing when the sentinel never retires, or when the entry point is not reached before it. */
  method Trim(log: seq<Row>, sentinel: Word) returns (r: Isa.Option<seq<Row>>)
    ensures Trimmed(log, sentinel, r)
  {
    var trace: seq<Row> := [];
    for k := 0 to |log|
      invariant trace == log[..k]
      invariant forall j :: 0 <= j < k ==> log[j].instr != sentinel
    {
      trace := trace + [log[k]];
      if log[k].instr == sentinel {
        break;
      }
    }
    if trace == [] || trace[|trace| - 1].instr != sentinel {
      return Isa.None;
    }
    ghost var last := |trace| - 1;
    assert trace == log[..last + 1];
    var start := 0;
    while start < |trace| && trace[start].pc != ENTRY_PC
      invariant start <= |trace|
      invariant forall j :: 0 <= j < start ==> log[j].pc != ENTRY_PC
    {
      start := start + 1;
    }
    if start == |trace| {
      return Isa.None;
    }
    assert IsCut(log, sentinel, start, last);
    assert trace[start..] == log[start..last + 1];
    r := Isa.Some(trace[start..]);
  }

  /** When the boot rows neither touch the entry point nor look like the sentinel, and the program's
      rows start at the entry point and reach the sentinel only at their end, trimming succeeds and
      leaves the program's rows, whatever follows them. */
  lemma CutIsTheProgram(boot: seq<Row>, program: seq<Row>, rest: seq<Row>, sentinel: Word, r: Isa.Option<seq<Row>>)
    requires forall j :: 0 <= j < |boot| ==> boot[j].pc != ENTRY_PC && boot[j].instr != sentinel
    requires program != [] && program[0].pc == ENTRY_PC
    requires forall j :: 0 <= j < |program| ==> (program[j].instr == sentinel <==> j == |program| - 1)
    requires Trimmed(boot + program + rest, sentinel, r)
    ensures r == Isa.Some(program)
  {
    var log := boot + program + rest;
    var s, l := |boot|, |boot| + |program| - 1;
    assert log[s] == program[0] && log[l] == program[|program| - 1];
    assert forall j :: 0 <= j < |boot| ==> log[j] == boot[j];
    assert forall j :: |boot| <= j < |boot| + |program| ==> log[j] == program[j - |boot|];
    assert IsCut(log, sentinel, s, l);
    assert log[s..l + 1] == program;
    forall start: nat, last: nat | IsCut(log, sentinel, start, last) ensures start == s && last == l {}
  }
}
