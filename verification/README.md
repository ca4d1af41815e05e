# A verified model of the five-stage RV32I core, its random-program generator and its lockstep checker

The repository holds a pipelined RV32I/Zicsr core with machine-mode traps and external debug, a
generator of random test programs that are meant to be safe by construction, and a scoreboard that
compares every retirement of the core with the trace of a reference simulator. This project models all
three and proves what they promise each other.

## How it is organised

| files | content |
|---|---|
| `Words`, `Package` | 32-bit words as integers with explicit wrap-around, bit fields, named constants |
| `Controller`, `Alu`, `HazardUnit`, `RegFile`, `CsrFile`, `DebugFsm`, `Dmem`, `Clint`, `UartTx`, `MemBus`, `Datapath`, `Top` | the hardware, one module per block: combinational logic as functions, registers and memories as classes with a `Clock` method proved against a next-state function |
| `Isa` | the sequential machine, written over signed integers, place values and little-endian bytes, without the control bundle or the ALU |
| `MemoryCorrect`, `ByteMap`, `ExecuteCorrect` | the RAM, alone and over any sequence of stores, and the execute stage against the sequential machine, for every instruction word |
| `Refinement`, `Runs` | the pipeline invariant, the abstraction, the one-edge theorem with its exact exception, whole runs, retirement order, UART stream, commit timing |
| `Transparency`, `Witnesses` | interrupts and halts as the interrupted program sees them; concrete programs from reset on which the debug hypotheses fail |
| `Encoders`, `Assembler` | both sets of instruction encoders, and two-pass label resolution |
| `ProgrammersModel` | logical results, trap and halt causes, CSR addresses, the device registers and the reset state as a program sees them, in numbers |
| `SafeProgram`, `StreamMeaning`, `GenStream`, `SafeRuns` | the generator, what its random numbers mean, what it promises, and what that promise means when the program runs |
| `Scoreboard`, `SpikeTrace` | the lockstep checker and the cutting of the simulator's log |
| `EndToEnd` | all of it together |

The main line of argument: every clock edge of the pipeline is one event of the sequential machine, or
a bubble (`Refinement`); so over every run the observed retirements are the sequential trace (`Runs`);
every program the generator returns is `Safe`, for every stream of random choices (`GenStream`); a safe
program never traps, only moves forward and keeps its stores off its own code (`SafeRuns`); therefore
the pipeline retires the trace of a machine with one unified memory within three edges per program word,
and the checker finishes clean on it (`EndToEnd`).

The execute stage is the commit point. The abstract program counter is the execute stage's if it holds
an instruction, else decode's, else the fetch register; the abstract registers are the register file
after the two pending writes; the abstract memory includes the store in the memory stage.

The sequential machine shares six things with the hardware model: instruction field slicing, the bitwise
gates, the CSR file's read and write ports, the device registers' read
ports and address windows, and the entry to debug mode that sets dpc and the cause field of dcsr. What these
are does therefore not follow from the refinement, which says that they are used rightly. It is proved in
`ProgrammersModel` and `CsrFile.WriteThenRead`, in the numbers of the manuals and the memory map; the
instruction fields are pinned down by the round trips of `Encoders`.

## Model

| member | source | states |
|---|---|---|
| Refinement.ResetInv | rtl/datapath.sv:100-161 | the pipeline invariant (decode follows execute, operand reads are current, no load feeds the instruction right behind it, bubbles are inert) holds at reset for any register contents |
| Refinement.InvNext | rtl/datapath.sv:84-378 | every clock edge keeps that invariant, under all inputs, including the edges on which the debug hypotheses fail |
| Refinement.ForwardedIsCurrent | rtl/hazard_unit.sv:48-56 | whichever source the forwarding select picks, the operand is the architectural register value, unless it would come from a load still in the memory stage |
| Refinement.OperandsCurrent | rtl/datapath.sv:177-181 | in every reachable state each operand the instruction in execute really uses equals its architectural register, for producers at distance one, two and three and for loads behind the interlock |
| Refinement.RegsNext | rtl/datapath.sv:320-384 | an edge changes the architectural registers by the execute stage's own write and nothing else: writeback and memory-stage progress are invisible |
| Refinement.PcAfterCommit | rtl/datapath.sv:90-118 | after an instruction in execute the next instruction of the abstract machine is at the redirect target, at the JAL target that decode resolved, or at pc + 4 |
| Refinement.BubbleStep | rtl/datapath.sv:146-161 | a bubble in execute, of either kind, changes no register, memory byte, CSR, device or program counter; only the timer counts |
| Refinement.HaltStep | rtl/debug_fsm.sv:41-69 | halting on a real instruction is exactly the architectural halt: dpc names it, none of its effects happen |
| Refinement.TrapStep | rtl/datapath.sv:252-294 | an exception or interrupt is exactly the architectural trap entry and the trapped instruction leaves no other trace |
| Refinement.ExecuteStep | rtl/datapath.sv:170-334 | an instruction that neither halts nor traps has exactly its architectural effect on pc, registers, CSRs, debug state, RAM, timer and UART |
| Refinement.StepRefines | rtl/datapath.sv:84-334 | with an instruction in execute the edge performs its one sequential event (execute, exception, interrupt, halt or resume) if and only if it is not a dret leaving debug mode while an enabled timer interrupt is due |
| Refinement.ResumeRaceSplits | rtl/datapath.sv:91-93 | in that race the machine ends up outside debug mode at dpc with the trap entry committed in the CSRs, which is neither the resume nor the interrupt |
| Refinement.HaltOnBubble | rtl/debug_fsm.sv:41-56 | a halt accepted on a bubble is the architectural halt in everything but the resume address, which is the one the bubble carries, and the cause, which is always the request; it is the architectural halt if and only if those two are right |
| Refinement.HaltAfterRedirect | rtl/debug_fsm.sv:51-56 | a halt accepted right after any execute-stage redirect records 0 as the resume address, whatever the target was |
| Refinement.RetireStep | rtl/datapath.sv:363-395 | records move down the pipe unchanged, and on each edge exactly the instruction that executes enters it; halted, trapped and wrong-path ones never do |
| Runs.EdgeExactly | rtl/datapath.sv:84-334 | in every reachable state, under any pins, the edge is one action of the sequential machine if and only if it meets the two debug hypotheses: a halt on a bubble finds the next instruction's address there and no ebreak at it, and no dret races a due enabled timer interrupt |
| Runs.EdgeRefines | rtl/datapath.sv:84-395 | under the two debug hypotheses one edge is one action of the sequential machine, in state and in what it retires |
| Runs.RunRefines | rtl/datapath.sv:84-395 | over every run meeting the debug hypotheses the abstract state follows the sequential machine, and the observed retirements are its executed instructions, in order, none lost and none duplicated |
| Runs.ResetRunRefines | rtl/top.sv:42-62 | the same from reset with any register and RAM contents, starting at address 0 with nothing in flight |
| Runs.UartStream | rtl/uart_tx.sv:33-45 | over any such run the transmitted bytes are the low bytes of the executed stores to the UART data register, in order: each sends exactly once, nothing else sends |
| Runs.SentNext | rtl/mem_bus.sv:46-63 | the transmit pulse of the next cycle carries exactly the byte of a memory-stage store to the UART data register, and there is no pulse otherwise |
| Runs.RankFalls | rtl/hazard_unit.sv:63-80 | while execute holds a bubble and nothing halts, every edge brings the next instruction one stage closer, so the pipeline cannot livelock |
| Runs.RankAfterCommit | rtl/hazard_unit.sv:63-80 | a commit is followed by exactly two bubbles after an execute-stage redirect, trap or halt, one after a JAL or an interlocked load, none otherwise |
| Runs.WaitForCommit | rtl/datapath.sv:113-161 | those bubbles are invisible to the abstract machine and the next instruction reaches execute after exactly that many edges |
| Runs.CommitGap | docs/DESIGN_GUIDE.md:117-126 | the gap between consecutive commits is exactly 3, 2 or 1 edges, by what the sequential machine does: 3 behind a halt, fault, interrupt, taken branch, JALR, mret or resume, 2 behind a JAL or a load whose successor reads its destination, 1 otherwise |
| Runs.BubblesArePenalty | rtl/hazard_unit.sv:63-80 | the bubbles that the flush and stall signals insert are exactly that penalty, for every instruction, successor and event |
| Runs.FirstBubble | rtl/datapath.sv:113-161 | the first bubble behind an instruction carries address zero after an execute-stage redirect or an interlocked load and the JAL's own address behind a JAL, and after a redirect the flushed decode slot behind it keeps the wrong-path address it held |
| Runs.HaltBehindCommit | rtl/debug_fsm.sv:41-56 | a halt accepted on the first or second bubble behind an instruction records zero, the JAL's own address or the address after the redirecting instruction, by which bubble it is; it is the architectural halt if and only if that is where the instruction sends execution and no ebreak is there |
| Runs.BubbleOrigin | rtl/datapath.sv:113-161 | over every run from reset, under all inputs, a bubble outside debug mode is one of the two that fill the pipeline or is at most as far behind an instruction as that instruction has bubbles, with no halt between |
| Runs.HaltOnAnyBubble | rtl/debug_fsm.sv:41-56 | so for every halt accepted on a bubble in any run from reset, what it records and exactly when it is right: always while the pipeline fills (unless the first instruction is an ebreak), and otherwise by the last instruction, its redirect target and the bubble's place behind it |
| Runs.StallMeetsRedirect | rtl/hazard_unit.sv:63-80 | in every reachable state a load-use stall never meets a branch, JALR, JAL, mret or debug exit; when it meets a trap or debug entry the target is in the PC next cycle and the stalled instruction is gone; otherwise fetch and decode hold |
| Controller.SystemDecodeExclusive | rtl/controller.sv:47-63 | no CSR instruction also decodes as ecall, ebreak, mret or dret whatever its address, no word is two of them, and none of them also writes a register, stores or branches |
| Alu.AdderSharing | rtl/alu.sv:37-58 | one adder gives sum, difference and the signed comparison, including at signed overflow |
| Alu.SignedCompare | rtl/alu.sv:56-74 | the sum's sign corrected by the overflow bit is the two's-complement order of the operands, for all pairs |
| Alu.ArithmeticShift | rtl/alu.sv:62-63 | the sign-filled shift is division of the signed value rounding towards minus infinity |
| Alu.LogicBits | rtl/alu.sv:50-55 | each bit of a logical result is the gate applied to the two operand bits and to nothing else; what the gates are is `ProgrammersModel.LogicalResults` |
| ProgrammersModel.LogicalResults | rtl/alu.sv:50-55 | for all operands and bit places, in the ALU and in the sequential machine, XOR is the sum of the two bits modulo two, AND their product, OR their sum less their product |
| ProgrammersModel.CsrBits | rtl/datapath.sv:221-231 | CSRRS sets exactly the bits set in its operand and CSRRC clears exactly those, in the execute stage and in the sequential machine |
| ExecuteCorrect.ImmediateI | rtl/extend.sv:26-27 | the assembled I immediate is the place-value immediate with a negative top bit, modulo 2^32 |
| ExecuteCorrect.ImmediateS | rtl/extend.sv:28-29 | the same for the split S immediate |
| ExecuteCorrect.ImmediateB | rtl/extend.sv:30-31 | the same for the scrambled B immediate |
| ExecuteCorrect.ImmediateJ | rtl/extend.sv:32-33 | the same for the scrambled J immediate |
| ExecuteCorrect.ImmediateU | rtl/extend.sv:34-35 | the same for the U immediate |
| ExecuteCorrect.ComputeCorrect | rtl/controller.sv:219-265 | for all funct3, bit 30 and opcode combinations the ALU decoder and the ALU compute the RV32I operation |
| ExecuteCorrect.BranchCorrect | rtl/datapath.sv:191-209 | the ALU operation chosen for a branch and the flag test taken of it decide the architectural condition, signed or unsigned, for all operands |
| ExecuteCorrect.ExceptionCorrect | rtl/datapath.sv:233-265 | execute raises an exception on exactly the instructions that architecturally fault, with the architectural code and value |
| ExecuteCorrect.WriteCorrect | rtl/controller.sv:94-111 | the write enable, destination and writeback value that leave execute are the architectural register write, for every instruction word |
| ExecuteCorrect.StoreCorrect | rtl/datapath.sv:235-246 | the store enable, address, width and data that leave execute are the architectural store, for every instruction word |
| ExecuteCorrect.NextPcCorrect | rtl/datapath.sv:188-209 | branch, jump, mret and resume targets are the architectural next pc, for every instruction word |
| ExecuteCorrect.SystemDecode | rtl/controller.sv:47-111 | the CSR controls of a word name the architectural CSR operation, its address and its operand, and the register port is used exactly by the register forms |
| ExecuteCorrect.CsrCorrect | rtl/datapath.sv:216-231 | CSR instructions and mret leave the CSR file as the architecture says, reading, combining and writing the addressed CSR in one step |
| ProgrammersModel.TrapCauses | rtl/rv32i_pkg.sv:79-84 | mcause and mtval after a trap: 2 and the word for an illegal instruction, 11 and zero for ecall, 4 or 6 and the address for a misaligned load or store, 0x80000007 and zero for the timer |
| ProgrammersModel.TrapCausesOnPipeline | rtl/datapath.sv:252-306 | the same numbers in the CSR file after the pipeline's edge |
| ProgrammersModel.HaltCauses | rtl/debug_fsm.sv:51-56 | on debug entry dpc is the instruction's address and bits 8:6 of dcsr are 1 for an ebreak and 3 for a request; its other bits stay |
| ProgrammersModel.HaltCausesOnPipeline | rtl/debug_fsm.sv:51-56 | the same after every pipeline edge that enters debug mode, bubbles included |
| ProgrammersModel.CsrMap | rtl/csr_file.sv:53-125 | by CSR address: what a CSRRW leaves in the CSR file and what it brings to its destination register, for the nine implemented addresses and all others |
| MemoryCorrect.LoadCorrect | rtl/dmem.sv:32-57 | every aligned load reads the little-endian bytes at its address modulo the RAM size, correctly extended, or the addressed device register |
| MemoryCorrect.RamWriteCorrect | rtl/dmem.sv:59-81 | every aligned store through the byte lanes is a little-endian store of its width's low bytes |
| MemoryCorrect.StoreCorrect | rtl/mem_bus.sv:46-63 | one cycle with a store reaches exactly one of RAM, timer and UART, as the address map says, while the timer counts |
| MemoryCorrect.NoStoreCorrect | rtl/mem_bus.sv:52-63 | one cycle without a store changes nothing but the timer count and the transmit pulse |
| MemoryCorrect.StoreFrame | rtl/dmem.sv:59-81 | a store leaves every byte outside its own range alone, also when the range wraps around the end of the RAM |
| MemoryCorrect.LoadAfterStore | rtl/dmem.sv:32-81 | the case of one store and a load of the same size from the same place: the stored low bytes come back, also around the end of the RAM |
| MemoryCorrect.LoadAfterOtherStore | rtl/dmem.sv:32-81 | a load from bytes a store did not touch returns what it returned before |
| ByteMap.StoredByte | rtl/dmem.sv:59-81 | byte k of a store is byte k of the stored value, at its place modulo the RAM size |
| ByteMap.LastWriterWins | rtl/dmem.sv:59-81 | after any sequence of aligned stores of any widths, overlapping as they may, each byte of the array is what the last store to cover it put there |
| ByteMap.LoadReturnsLastBytes | rtl/dmem.sv:27-81 | after any such sequence a load of any width and extension, whatever the widths of the stores it overlaps, returns the last bytes written at its place, correctly extended |
| ProgrammersModel.CompareReadsBack | rtl/clint.sv:32-46 | a word stored to 0x20004 is what a load there returns, however many cycles pass without another store to it |
| ProgrammersModel.CounterReadsBack | rtl/clint.sv:32-46 | a word stored to 0x20000 is what a load there returns n cycles later, plus n |
| ProgrammersModel.UartReadsBack | rtl/uart_tx.sv:33-55 | the byte stored to 0x30000 is what a load there returns until the next such store, and 0x30004 always reads one |
| ProgrammersModel.Windows | rtl/mem_bus.sv:46-54 | the devices occupy 0x20000..0x2000F and 0x30000..0x3000F and every other address is RAM |
| ProgrammersModel.AfterReset | rtl/clint.sv:28-30 | until stored to, the counter holds the cycles since reset, the compare register all ones and the UART zero; no CSR reads as anything but zero apart from a due mip; the core is not parked |
| MemoryCorrect.LoadDependsOnBytes | rtl/dmem.sv:36-41 | a load depends on the bytes it covers and on no other |
| RegFile.BypassReadsNextState | rtl/regfile.sv:26-30 | a decode read returns what the array holds after this cycle's write, which is the whole of the distance-three dependency; x0 reads zero even though the array may hold something there |
| RegFile.RegArray.Clock | rtl/regfile.sv:26-27 | the array after the edge differs at most at the written index, x0 included |
| CsrFile.CsrRegs.Clock | rtl/csr_file.sv:78-126 | the CSR registers after the edge, a trap outranking an mret outranking a write |
| CsrFile.WriteThenRead | rtl/csr_file.sv:53-125 | what a CSR reads back after a write: the implemented bits of the written value, and every other CSR as before |
| DebugFsm.DebugRegs.Clock | rtl/debug_fsm.sv:44-69 | parked flag, dpc and cause after the edge: only entry loads dpc and the cause, only a parked dret leaves |
| Dmem.RamArray.Clock | rtl/dmem.sv:59-81 | the byte array after the edge, written in place, only under the write enable |
| Clint.ClintRegs.Clock | rtl/clint.sv:27-36 | the counter always advances or takes the stored value, and the compare register changes only by a store to it |
| UartTx.UartRegs.Clock | rtl/uart_tx.sv:33-43 | the pulse lasts one cycle and only a store to the data register loads the byte |
| MemBus.Bus.Clock | rtl/mem_bus.sv:46-63 | one edge of RAM, timer and UART under a single store port |
| Datapath.Pipe.Clock | rtl/datapath.sv:100-378 | the in-place update of all pipeline registers, register file, CSRs and debug state loads them simultaneously, from the values before the edge |
| Top.Soc.Clock | rtl/top.sv:42-62 | one edge of core and data bus together, which is the step that all run theorems iterate |
| Transparency.HandlerKeeps | rtl/csr_file.sv:88-96 | a handler run of any length whose instructions leave the values of mstatus and mepc as they are, reading them or writing them back included, is not interrupted again and reaches its end with the return address and the stacked enable bit intact |
| Transparency.HandlerMayRead | rtl/datapath.sv:216-231 | reading mstatus or mepc by a CSRRS or CSRRC that sets no bit is such an instruction, unless mepc holds stray low bits, which it would clear |
| Transparency.InterruptTransparent | rtl/csr_file.sv:88-96 | after any such handler that restores the registers, mret comes back to the preempted instruction with interrupts on as before; it retired nothing the first time and now executes once, with the same store and successor, and with the same register write unless it reads a CSR, a device, or RAM that the handler changed |
| Transparency.InterruptOnPipeline | rtl/datapath.sv:267-294 | the same on the pipeline: over a run whose events are the interrupt, the handler and its mret, program counter, registers and interrupt enable come back and the next instruction is the preempted one |
| Transparency.MretRefire | rtl/clint.sv:27-48 | on the pipeline, the timer at the instruction an mret returns to is the timer at the mret, as every store before it left it, two counts on; it is pending if and only if that counter has reached that compare value |
| Transparency.LastCompareHolds | rtl/clint.sv:32-35 | whatever instruction stored the timer's compare value last, and however many follow, that value is still there at the end |
| Transparency.StoredCompareDecides | rtl/clint.sv:27-48 | no spurious refiring: with a compare value stored anywhere before the mret, directly before it included, the instruction returned to is interrupted if and only if the interrupt is enabled and the counter has by then reached the stored value; with a later value it executes, unless it halts or faults itself |
| Transparency.HaltResumeTransparent | rtl/debug_fsm.sv:41-69 | halting and resuming through a bare dret leaves registers, CSRs and RAM as if there had been no halt, at the halted instruction, which retired nothing; only the timer has counted |
| Transparency.HaltResumeOnPipeline | rtl/debug_fsm.sv:41-69 | the same on the pipeline: over a run whose events are the halt, bubbles and the dret, only the timer and the debug registers differ and the next instruction is the halted one |
| Transparency.TicksTouchOnlyTheTimer | rtl/clint.sv:32-33 | what that counting is: mtime advanced by the number of cycles, nothing else |
| Transparency.DpcKeptWhileParked | rtl/debug_fsm.sv:50-64 | whatever executes while parked, traps and further halt requests included, the resume address and cause stay put |
| Transparency.ZeroOperandCsrWrite | rtl/datapath.sv:216-231 | a CSRRS or CSRRC whose operand is zero, whether x0, a zero immediate or a register holding zero, leaves the CSR file alone if and only if the CSR is not an mepc with non-zero low bits |
| Transparency.OutOfRangeStoreWraps | rtl/dmem.sv:29-81 | a store of any width is kept from the RAM by the two device windows and by nothing else: beyond the RAM it lands modulo the RAM size, where a load of that width finds it |
| Witnesses.HaltLosesBranchTarget | rtl/datapath.sv:146-152 | a concrete program from reset on which an external halt falls on the bubble behind a taken branch: execution was to go on at 16, the debugger is told 0 |
| Witnesses.ReadOfMepcWrites | rtl/csr_file.sv:88-113 | a concrete program from reset on which a trap at an address that is not a multiple of four leaves low bits in mepc, and a CSRRS of x0 then clears them |
| Witnesses.ResumeRaceHappens | rtl/datapath.sv:91-93 | a concrete program that from reset, for any registers and RAM and without any debug request, parks at its ebreak, enables a due timer interrupt in debug mode and leaves by dret: that edge is neither the resume nor the interrupt |
| Encoders.RoundTripI | verif/spike/gen_stream.py:99-100 | slicing and sign-extending an encoded I-format word gives back every field, for the whole immediate range |
| Encoders.RoundTripR | verif/spike/gen_stream.py:104-105 | the same for R format, including the alternate-operation bit |
| Encoders.RoundTripS | verif/spike/gen_stream.py:109-112 | the same for S format |
| Encoders.RoundTripB | verif/spike/gen_stream.py:116-120 | the same for B format and every even offset in range |
| Encoders.RoundTripU | verif/spike/gen_stream.py:123-124 | the same for U format |
| Encoders.RoundTripJ | verif/spike/gen_stream.py:128-132 | the same for J format and every even offset in range |
| Encoders.EncodersAgree | rtl/testgen/asm.py:6-36 | the two independently written encoder sets build the same word from the same fields in every format |
| Assembler.Assemble | rtl/testgen/program.py:72-84 | two passes give a program exactly when every referenced label is defined somewhere, and then each word sits at its entry's address with its label distance encoded |
| Assembler.LabelIsDefined | rtl/testgen/program.py:72-76 | a label's table entry is the address of its last definition |
| Assembler.BranchLands | rtl/testgen/program.py:78-84 | a resolved branch, decoded and executed at its own address, goes to its label if and only if the distance fits thirteen signed bits |
| Assembler.JumpLands | rtl/testgen/program.py:78-84 | a resolved JAL goes to its label if and only if the distance fits twenty-one signed bits |
| SafeProgram.DataBaseClearsCode | verif/spike/gen_stream.py:66-84 | the data window starts on the multiple of 256 that is 256 to 511 bytes past the program image, and there is room for it up to exactly 384 words |
| SafeProgram.SafeInNumbers | verif/spike/gen_stream.py:256-269 | the layout of a safe program in numbers: 29 zeroing words, x1, the body, twelve NOPs, 0x7FF into x31, and at most 384 words |
| SafeProgram.LegalInNumbers | verif/spike/gen_stream.py:29-30 | which words are legal encodings, by opcode, funct3 and funct7 in the manual's numbers, both ways |
| SafeProgram.LegalIsDefined | rtl/controller.sv:57-63 | a legal encoding decodes to no reserved width, branch condition or SYSTEM instruction, so other machines must agree on it |
| SafeProgram.AppendWord | verif/spike/gen_stream.py:180-256 | appending an allowed instruction with its landing place recorded keeps the body invariant: every transfer's landing place is recorded and no recorded place holds a JALR |
| SafeProgram.AppendPair | verif/spike/gen_stream.py:245-252 | so does appending an AUIPC and JALR unit, provided nothing already jumps at its second half |
| GenStream.BiasedSrc | verif/spike/gen_stream.py:150-165 | which register a source is, as a function of the numbers drawn: in 60 of 100 a recent producer unless the drawn slot wrote none, otherwise any of x0..x30 |
| GenStream.RandomOp | verif/spike/gen_stream.py:190-199 | a legal encoding of the register-register operation that the numbers drawn mean (`StreamMeaning.OpAt`), with the operands in their places |
| GenStream.RandomOpImm | verif/spike/gen_stream.py:200-210 | a legal encoding of the register-immediate operation that the numbers drawn mean; shift amounts carry no reserved bits |
| GenStream.RandomLoad | verif/spike/gen_stream.py:211-222 | a legal encoding of the load that the numbers drawn mean: through x1, of the drawn width and offset, aligned and inside the 256-byte window |
| GenStream.RandomStore | verif/spike/gen_stream.py:223-231 | a legal encoding of the store that the numbers drawn mean, with the same placement |
| GenStream.RandomBranch | verif/spike/gen_stream.py:232-239 | a legal BEQ or BNE on the two sources, 16, 32 or 48 bytes forward, as the numbers drawn say |
| GenStream.RandomJal | verif/spike/gen_stream.py:240-244 | a JAL to the given register, 16, 32 or 48 bytes forward, as the number drawn says |
| GenStream.RandomUpper | verif/spike/gen_stream.py:253-256 | LUI or AUIPC to the given register with the drawn upper immediate |
| GenStream.RandomPair | verif/spike/gen_stream.py:245-252 | an AUIPC with zero offset to the drawn register and a JALR off it |
| GenStream.LastDestinationsAppend | verif/spike/gen_stream.py:145-169 | the recent-producer window is the destinations of the last three emitted instructions, newest first, with zero for those that write none |
| GenStream.RandomWord | verif/spike/gen_stream.py:190-256 | which kind of instruction a class number means: below 25 register-register, 45 register-immediate, 62 load, 75 store, 85 branch, 90 JAL, and LUI or AUIPC from there; encoded legally, with its destination and offset |
| GenStream.RandomInstr | verif/spike/gen_stream.py:180-256 | one turn of the loop appends exactly the instructions that the numbers drawn mean: a pair if and only if the class is 90 to 93 and no earlier transfer lands on its second place, otherwise one word by its class; and keeps the body invariant, legality and the recent-producer window |
| GenStream.RoomIsFree | verif/spike/gen_stream.py:176-179 | the recorded landing places are exactly those of the transfers emitted, so a place is recorded if and only if some transfer lands there |
| GenStream.Generate | verif/spike/gen_stream.py:134-269 | for every stream of numbers the result is a safe program of legal encodings whose body decodes to what the numbers mean, and there is a result if and only if that takes at most 384 words |
| GenStream.LaidOutSafely | verif/spike/gen_stream.py:257-269 | prologue, body, padding and sentinel together are a safe program: the padding absorbs the last transfers |
| SafeRuns.NeverTraps | verif/spike/gen_stream.py:134-138 | no instruction of a safe program halts, faults or is interrupted |
| SafeRuns.MovesForward | verif/spike/gen_stream.py:232-252 | the pc strictly increases, stays inside the program and enters a JALR only from its own AUIPC |
| SafeRuns.NextIsAt | verif/spike/gen_stream.py:245-263 | the data base in x1, and at a JALR the base register that its AUIPC set, survive every instruction |
| SafeRuns.StoresStayInWindow | verif/spike/gen_stream.py:66-84 | a store changes no byte outside the 256-byte data window |
| SafeRuns.ImageKept | verif/spike/gen_stream.py:66-84 | on a unified memory the program image survives every store of the program |
| SafeRuns.EffectsAgree | verif/spike/gen_stream.py:138-144 | writes, stores and next pc depend only on registers the program has itself defined and on the data window |
| SafeRuns.TwinStep | verif/spike/gen_stream.py:134-269 | two machines, one with split and one with unified memory and with unrelated initial registers, execute each instruction, retire the same record and are again side by side further on |
| SafeRuns.SentinelRecord | verif/spike/gen_stream.py:262-268 | the last instruction retires the completion value in x31, and no earlier one writes x31 |
| Scoreboard.Checker.Write | verif/uvm/src/rv32i_scoreboard.svh:142-244 | one retirement moves index, mismatch count and checker state as the comparison says, and the done event fires exactly on the transition out of active |
| Scoreboard.Checker.Diverge | verif/uvm/src/rv32i_scoreboard.svh:132-140 | a divergence counts one mismatch, desynchronises the checker and fires done |
| Scoreboard.ErrorsMeanMismatch | verif/uvm/src/rv32i_scoreboard.svh:142-244 | no error is counted for a row exactly when the register writes match, x0 aside, and the stores agree in presence, width, address and in each byte that their width stores |
| Scoreboard.MasksKeepStoredBytes | verif/uvm/src/rv32i_scoreboard.svh:50-57 | the masks for SB, SH and SW keep exactly the bytes that the sequential machine stores for that width, and other widths are rejected |
| Scoreboard.SameBytesSameMemory | verif/uvm/src/rv32i_scoreboard.svh:216-230 | two data words agree in those bytes if and only if storing either leaves every RAM the same, so no store that differs in memory is passed and none is refused that does not |
| Scoreboard.VerdictIsFinal | verif/uvm/src/rv32i_scoreboard.svh:142-244 | after divergence or completion no retirement changes anything |
| Scoreboard.CountersBounded | verif/uvm/src/rv32i_scoreboard.svh:142-244 | at most three mismatches per reference row plus one, so 32-bit counters do not wrap |
| Scoreboard.CleanFinish | verif/uvm/src/rv32i_scoreboard.svh:142-244 | from any clean active state the checker finishes clean if and only if the retirements match row by row up to and including a completing one |
| Scoreboard.PassMeansWholeTraceMatches | verif/uvm/src/rv32i_scoreboard.svh:142-244 | with a reference whose only completing row is its last, a pass means the whole trace matched, and conversely |
| SpikeTrace.Trim | verif/spike/gen_stream.py:319-353 | the result is the log from its first row at the entry point up to its first sentinel, and there is none only when no such cut exists |
| SpikeTrace.CutIsTheProgram | verif/spike/gen_stream.py:340-353 | on a log of boot rows, the program's rows and anything behind the sentinel, trimming succeeds and leaves exactly the program's rows |
| EndToEnd.PipelineFollows | verif/spike/gen_stream.py:134-269 | from any state side by side with the reference, the pipeline executes the rest of the reference trace within three edges per remaining word plus the bubbles in front; all the way it satisfies the debug hypotheses and nothing halts, faults or is interrupted |
| EndToEnd.PipelineRetiresReference | rtl/datapath.sv:84-395 | from reset with no debug request, the pipeline has committed the sentinel of any safe program within three edges per program word without a single trap, and the retirements observed are exactly the trace of the unified-memory machine |
| EndToEnd.ReferenceTerminates | verif/spike/gen_stream.py:175-269 | that trace has at most one row per program word, contains the sentinel once, at its end, and writes x31 nowhere else |
| EndToEnd.ReferenceExists | verif/spike/gen_stream.py:66-76 | for every safe program and RAM contents there is a unified-memory machine holding both, so the theorems about it are about something |
| EndToEnd.TraceIgnoresRegisters | verif/spike/gen_stream.py:138-144 | two runs of a safe program from any two register files, and any two RAMs that agree on the data window, show the same retirements up to and including the sentinel |
| EndToEnd.TxnsAreRecords | rtl/retire_if.sv:17-28 | the monitor's transactions are the retirement records, one for one |
| EndToEnd.LockstepPasses | verif/uvm/src/rv32i_scoreboard.svh:142-244 | for every safe program the checker, fed by the pipeline and a reference trace of the unified-memory machine, finishes with zero mismatches |
| EndToEnd.TrimmedLogIsReference | verif/spike/gen_stream.py:303-353 | trimming a simulator log that contains the program's rows after boot rows succeeds and yields exactly that reference trace |
| EndToEnd.TrimmedLogPasses | verif/uvm/src/rv32i_scoreboard.svh:142-244 | for a safe program, trimming the simulator's log succeeds and every long enough pipeline run, from any registers and any RAM that agrees on the data window, passes the check against what it leaves |
| EndToEnd.GenerateAndTrace | verif/spike/gen_stream.py:356-374 | for every stream of random choices, a program that comes out is safe and legal, and if the simulator behaves as the unified-memory machine on it there is a trace, against which every pipeline run of the program passes |

## Where code and documentation disagree

The model follows the code.

- rtl/mem_bus.sv:17-19 says stores outside RAM and devices are dropped; they wrap into RAM
  (`Transparency.OutOfRangeStoreWraps`).
- Halt entry does not ask whether execute holds an instruction (rtl/debug_fsm.sv:41), so a halt on a
  bubble can lose the resume address (`Runs.HaltOnAnyBubble`, `Witnesses.HaltLosesBranchTarget`); on the
  second bubble behind a taken branch the debugger is even sent down the path not taken.
- A dret in the cycle of a pending enabled timer interrupt resumes and takes the trap entry at once
  (`Refinement.StepRefines`, `Witnesses.ResumeRaceHappens`). These two cases are all that the run theorems
  exclude, and they exclude no more: `Runs.EdgeExactly`.
- Debug mode does not hold off interrupts or redirect exceptions: both go through mtvec and leave the
  core parked; and an ebreak there does nothing (rtl/datapath.sv:269-294, rtl/debug_fsm.sv:41).
- An exception goes before a timer interrupt due at the same instruction (rtl/datapath.sv:275-283), as
  docs/DESIGN_GUIDE.md:266-270 says; section 3.1.9 of the privileged architecture has it the other way.
- CSRRS and CSRRC of x0 or a zero immediate write the CSR back (`Transparency.ZeroOperandCsrWrite`,
  `Witnesses.ReadOfMepcWrites`).
- mtvec is used with its low bits, targets with bit 1 set do not trap, and a trap may leave mepc
  unaligned (rtl/datapath.sv:93, rtl/datapath.sv:189, rtl/csr_file.sv:89).
- FENCE is illegal (rtl/controller.sv:57-63). Reserved load and store widths act as words, reserved
  funct7 values are ignored, reserved branch conditions are never taken, funct3 of JALR is ignored, and
  a dret outside debug mode does nothing. `Isa` marks these as choices of the core. The generator emits
  none of them (`GenStream.Generate`).

## Left out

- Four-state values, delta cycles, asynchronous reset and rtl/reset_sync.sv: every run starts in the
  reset state on a clock edge.
- Instruction memory is any total function from addresses to words; the size and file loading of
  rtl/imem.sv are not modelled.
- The RAM size is any positive multiple of four; rtl/dmem.sv slices address bits, which is the same for
  the powers of two it is used with.
- Bitwise `|` of disjoint fields in the Python encoders is written as a sum.
- Register arguments of the Python encoders are taken to be in 0..31, funct3 in 0..7 and funct7 in 0..127, as in every call.
- Sub-word accesses to the devices, and writes to read-only CSRs: the sequential machine does what the
  code does, so nothing is claimed about what the documentation leaves open (docs/DESIGN_GUIDE.md:437-464).
- The timer-pending line is an input of each sequential step, taken from the timer of the same cycle;
  the sequential machine does not predict how many cycles an instruction takes.
- The list of the generator's draws is an arbitrary stream of numbers reduced into range; nothing about
  probabilities is claimed beyond `GenStream.BiasedSrc`.
- Scoreboard.Checker.Write: counters are unbounded; `Scoreboard.CountersBounded` gives the bound that
  makes the 32-bit ones equivalent on traces of fewer than 2^30 rows.
- Transparency.HaltResumeTransparent: the parked program is a bare dret, because anything longer may
  change registers by design; what stays fixed under arbitrary parked code is `Transparency.DpcKeptWhileParked`.
- SpikeTrace.Trim: rows are given; running the simulator, matching the log's text and the temporary
  files are not modelled, and the messages of the two failures are one empty result.
- Building the ELF, command lines, the golden-trace script and the shell scripts: process and text
  plumbing.
- UVM agents, driver, sequencer, coverage, waveform extraction and the assertion file as code: the
  assertions' intent is covered by `Runs.StallMeetsRedirect` and the refinement.
- verif/spike/rvproj_devices.cc: the devices are modelled from the RTL.
- rtl/testgen/program_csr.py and the directed test programs: data, not logic.
